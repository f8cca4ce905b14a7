# Sensor-link firmware: verified models

Dafny models of the concurrency, recovery and arithmetic cores of the sensor-link firmware, with proofs of
what each promises over every input, every interleaving or every run. Each module stands for one component:

| file | component |
|---|---|
| `DoubleBuffer.dfy` | lock-free ping-pong buffer; one step per atomic access and per copied word, any number of threads |
| `Connection.dfy` | the loop that serves an open connection: choosing, performing and concluding one operation after the other |
| `Delivery.dfy` | store, pending slots, upload queue, the connection loop's steps, confirm, drain barrier, with sends failing and futures dropped anywhere |
| `Backoff.dfy` | the reconnect loop on a millisecond clock |
| `SlicedDownload.dfy`, `FirmwareClient.dfy` | range-request download over a failing modem and an RFC 9110 server, and the client that numbers the chunks |
| `FirmwareValidator.dfy`, `Bootloader.dfy` | streaming image validation against its one-shot meaning; validate, apply, reboot |
| `FlashDelete.dfy` | deleting a flash object under a persistent lock, with a crash possible at every point |
| `SlopeArithmetic.dfy`, `ClockDrift.dfy` | truncating fixed-point clock arithmetic, the drift estimate and the four conversions |
| `SpiFlash.dfy` | NOR flash driver against a chip that decodes its frames |
| `ActiveConfig.dfy`, `ReservingChannel.dfy`, `BootStats.dfy` | counted configuration bindings, the reserving channel, boot-loop statistics |
| `Options.dfy`, `Numbers.dfy` | the optional value; bytes and arithmetic the components share |

Conventions. Failures, server answers, scheduling and durations are non-deterministic choices or parameters. Hash,
signature check, header parser, base64 decoder and the two floating-point computations are arbitrary functions. Protocols
are sequentially consistent interleavings; code that updates fields is a class; loops are loops. Machine integers
are bounded or wrap where the source's width matters.

## Where the code and its documentation disagree

The models follow the code. Each disagreement has a lemma with a concrete run and, where a caller could tell the cases
apart, the exact condition.

- `try_write` documents `None` for an active writer. Its two exchanges are separate steps, and it can refuse with no
  guard live at either: `SpuriousRefusal`, `RefusedIff`.
- `update` returns false in the call that completes an image of exactly its recorded length: `DoneIff`.
- A header split over slices makes the validator lose count, so an image of exactly its recorded length never
  completes: `CompletesIffFirstSliceCoversHeader`. Empty slices right behind a header-sized one hash the authenticated
  fields again, once each; all others are harmless: `HashCoversAuthRepeatedly`, `SlicingDoesNotMatter`.
- A 206 answer may lawfully carry less than the requested range (section 15.3.7 of RFC 9110); the driver takes it for
  the last slice: `MistakesEndIffShortPartialContent`, `ShortPartialContentIsLawful`.
- A download restart that fails while chunks are streaming leaves the client streaming, and the next event is
  `FWDownloadComplete` with nothing delivered: `Client.DownloadFirmwareUpdate`, `Client.HandleUpdateState`.
- After a serialization error the comment keeps the connection open to give other topics a chance. The failed upload
  stays pending: actions go on, but no other upload is received, nothing is read and a disconnect hint has no effect:
  `PendingUploadBlocks`, `HeldIff`.
- A barrier request made while the previous one is outstanding is documented to share its reply, and the incoming
  queues are said to be empty when a request is taken. Neither a request made after the taking nor one made between the
  two polls that take it need be covered: `LateRequestIsNotCovered`, `RequestBetweenPollsIsNotCovered`. The exact
  condition is `RequestIsCoveredIff`: the reply covers a request if and only if nothing handed in before the request
  is still incoming. A requester can be certain with nothing incoming, before the first poll (`EarlyRequestIsCovered`), or
  with no barrier outstanding and the task not between its polls (`QuietRequestIsCovered`).
- The comment on the retry decision promises less than 960 s offline. Whole seconds are compared, and with equality the
  promise is missed, by up to 0.999 s: `OfflineTimeExceedsBound`, `RetryKeepsBoundIff`.
- The rejection of unreasonable drift is one-sided: `SlowClockIsNotRejected`, `UnreasonableErrorIsMeasuredIff`.
- A delete says it skips blocks that need no erase; the spare block's expected fragment number is out of reach, so it
  is always formatted: `SpareIsAlwaysFormatted`. Block numbers are not relative to the object, so a
  block whose number is not below the object's count of data blocks is never skipped either, and one format counts as
  several erases where the comment assumes one: `FormattedIsSkippedNextTimeIff`.
- Boot statistics say several counters may be incremented at once; one is. Every other pending mark is left, exactly if
  the boot does not clear the statistics, and later boots report them one by one: `MarkIsLeftIff`,
  `LeftoverMarksAreReportedInOrder`, `StaleMarkIsReported`.

## Model

| member | source | states |
|---|---|---|
| DoubleBuffer.ReadReturnsCommittedValue | sensor-link-firmware/src/sync/mod.rs:159-183 | in every interleaving, a read with fewer than 2^32 version increments between its two version loads returns exactly the value committed at its second state load |
| DoubleBuffer.GuardsAreExclusive | sensor-link-firmware/src/sync/mod.rs:193-229 | at most one write guard is live, and one is live exactly while the state is a Writing state |
| DoubleBuffer.CommitsBuildOnEachOther | sensor-link-firmware/src/sync/mod.rs:226-235 | every committed value is its writer's edits applied to the value committed just before, and readers are pointed at the last one |
| DoubleBuffer.GuardReadNeverRetries | sensor-link-firmware/src/sync/mod.rs:217-229 | the read inside try_write passes its check the first time and hands the writer the last committed value |
| DoubleBuffer.ReadReturnsIff | sensor-link-firmware/src/sync/mod.rs:171-181 | a caller's read returns exactly if version and read index are unchanged at its second loads, and starts over otherwise |
| DoubleBuffer.UndisturbedRead | sensor-link-firmware/src/sync/mod.rs:159-183 | a read nobody disturbs takes one step per atomic access and word and returns the committed value |
| DoubleBuffer.WriteIsApplied | sensor-link-firmware/src/sync/mod.rs:264-270 | a write through the guard is applied behind the writes before it and unseen by readers |
| DoubleBuffer.DropPublishesWrites | sensor-link-firmware/src/sync/mod.rs:231-235 | dropping the guard publishes exactly its writes on top of the last commit and frees the lock |
| DoubleBuffer.StepInv | sensor-link-firmware/src/sync/mod.rs:193-276 | every step of every thread keeps the invariant behind the read and exclusion guarantees |
| DoubleBuffer.CommitInv | sensor-link-firmware/src/sync/mod.rs:231-235 | storing the state after the version increment keeps what every concurrent reader relies on |
| DoubleBuffer.RunInv | sensor-link-firmware/src/sync/mod.rs:159-235 | the invariant holds in every state of every interleaving |
| DoubleBuffer.RefusedIff | sensor-link-firmware/src/sync/mod.rs:193-214 | when try_write refuses: a guard is live at the second exchange, or the read index and the parity of the commits since the first exchange make it miss |
| DoubleBuffer.SpuriousRefusal | sensor-link-firmware/src/sync/mod.rs:185-214 | an interleaving in which try_write refuses with no guard live at either exchange |
| Delivery.NothingIsLost | sensor-link-firmware/src/logic/dispatch.rs:90-344 | in every reachable state each item is queued, buffered, stored or failed, and a stored unconfirmed item waits or is carried by exactly one upload |
| Delivery.FailedItemTravelsOn | sensor-link-firmware/src/logic/dispatch.rs:309-344 | an item that could not be stored stays on its way until it is sent, replaced by another such item of its kind, or dropped with the network task |
| Delivery.FailedItemTravels | sensor-link-firmware/src/logic/dispatch.rs:309-344 | such an item is put into the pending slot |
| Delivery.WaitingItemCanBeDelivered | sensor-link-firmware/src/logic/dispatch.rs:97-276 | with everything ready a stored item is peeked, handed over, sent and confirmed |
| Delivery.IncomingDataCanBeStored | sensor-link-firmware/src/logic/dispatch.rs:323-344 | incoming data goes through the serializer into the store |
| Delivery.BarrierCanBeAnswered | sensor-link-firmware/src/logic/dispatch.rs:135-158 | with everything delivered a barrier request is taken, flushed and answered |
| Delivery.BarrierStaysActive | sensor-link-firmware/src/logic/dispatch.rs:135-158 | a taken barrier stays active until it is answered |
| Delivery.DroppedUploadWaitsAgain | sensor-link-firmware/src/logic/dispatch/confirmable.rs:5-13 | an upload dropped unconfirmed gives its item back |
| Connection.State.HandleConnection | sensor-link-firmware/src/logic/network.rs:333-487 | over any offers and results, an upload is confirmed exactly in the iterations that sent that upload and got Ok, whatever other operations returned in between |
| Connection.ConfirmedInItsOwnIteration | sensor-link-firmware/src/logic/network.rs:405-486 | the same of every run of the loop: no other operation's Ok confirms the pending upload, and no successful send goes unconfirmed |
| Connection.RoundPerforms | sensor-link-firmware/src/logic/network.rs:356-403 | after any run, an idle loop reads a response, stops on a timeout, acts on a command, sends a message; otherwise actions come first, then the pending upload, then background uploads |
| Connection.EndsIff | sensor-link-firmware/src/logic/network.rs:405-486 | a connection ends with Success exactly after a timeout or a hint with nothing left, with Unexpected exactly after a failed read, with Error exactly after a failed download start or a send that failed other than in serialization |
| Connection.LogTellsState | sensor-link-firmware/src/logic/network.rs:405-486 | what is pending, whether a hint was taken and the timeout are what the operations performed so far have made of them |
| Connection.PendingUploadBlocks | sensor-link-firmware/src/logic/network.rs:356-403 | while no send succeeds a pending upload shuts out other uploads, reading and the end the disconnect hint asks for |
| Connection.HeldIff | sensor-link-firmware/src/logic/network.rs:461-475 | one upload holds the open connection if and only if every round is an action that does not end it or a send failing with a serialization error |
| Delivery.ConfirmedOnlyAfterSend | sensor-link-firmware/src/logic/network.rs:356-487 | in every run, a step that confirms an item follows the return of a send of that item with Ok in the same iteration of the network loop, with nothing in between |
| Delivery.ReplyLeavesOutWhatIsIncoming | sensor-link-firmware/src/logic/dispatch.rs:135-158 | whatever the run, the items a DispatchDrained stands for, sent and confirmed or failed to be stored, are exactly those not still incoming |
| Delivery.ReplyStands | sensor-link-firmware/src/logic/dispatch.rs:135-158 | what a reply stood for stays delivered in every later state |
| Delivery.DrainedCoversRequest | sensor-link-firmware/src/logic/dispatch.rs:90-230 | a reply after a poll that found nothing incoming covers every item handed in before that poll |
| Delivery.EarlyRequestIsCovered | sensor-link-firmware/src/logic/dispatch.rs:193-229 | a request made before the first of the two polls that take it is covered by the reply |
| Delivery.QuietRequestIsCovered | sensor-link-firmware/src/logic/dispatch.rs:193-229 | a request made while no barrier is outstanding and the task is not between its two polls is covered by every later reply |
| Delivery.RequestIsCoveredIff | sensor-link-firmware/src/logic/dispatch/barrier.rs:1-19 | a request is covered by the next reply if and only if nothing handed in before it is still incoming then, which is certain if nothing is when it is made |
| Delivery.RequestBetweenPollsIsNotCovered | sensor-link-firmware/src/logic/dispatch.rs:199-211 | a run in which a request made between the two polls of one select is taken and answered without the item in front of it |
| Delivery.LateRequestIsNotCovered | sensor-link-firmware/src/logic/dispatch/barrier.rs:16-22 | a run in which a request made while a barrier is outstanding is answered without the item that preceded it |
| Delivery.StepInv | sensor-link-firmware/src/logic/dispatch.rs:239-344 | every action keeps: one place per item, one upload per busy item, confirmed items sent, replies never taken back |
| Delivery.RunInv | sensor-link-firmware/src/storage/dispatch_store.rs:30-79 | the invariant holds in every state of every run, with uploads dropped and connections lost at any point |
| Backoff.NetworkTask | sensor-link-firmware/src/logic/network.rs:208-331 | the loop, with its optional offline time, computes the run the lemmas below are about |
| Backoff.StopsIff | sensor-link-firmware/src/logic/network.rs:276-331 | from any running task a round is the last exactly if its session ended as intended, its connect timed out, or it was refused past the limit; otherwise the delay of its turn is waited |
| Backoff.LostConnectionIsRetried | sensor-link-firmware/src/logic/network.rs:277-311 | a session that ends unexpectedly or in an error is followed by another attempt |
| Backoff.StoppedForGood | sensor-link-firmware/src/logic/network.rs:291-320 | after the last round no attempt is ever added |
| Backoff.AttemptsStartInTime | sensor-link-firmware/src/logic/network.rs:276-286 | every attempt starts less than 301 s after going offline, plus the signalling time before it; the delay after attempt k is 3 s doubled k times, between 3 and 300 s |
| Backoff.AtMostSevenAttempts | sensor-link-firmware/src/logic/network.rs:276-331 | no stretch without a success has more than seven attempts |
| Backoff.SevenAttemptsHappen | sensor-link-firmware/src/logic/network.rs:276-331 | seven is reached |
| Backoff.NoSecondChance | sensor-link-firmware/src/logic/network.rs:322-330 | from the ninth attempt of a run on, one refused connect ends the task however often it connected before |
| Backoff.RetryKeepsBoundIff | sensor-link-firmware/src/logic/network.rs:282-286 | after any run, a granted retry keeps the documented 960 s for every connect that may follow if and only if whole seconds waited plus delay are below 300; without signalling time the bound is missed exactly when the guard holds with equality |
| Backoff.OfflineTimeExceedsBound | sensor-link-firmware/src/logic/network.rs:282-286 | a run without signalling delay that is offline for 960.999 s |
| SlicedDownload.AcceptedSlice | sensor-link-firmware/src/drivers/quectel.rs:713-810 | what fetch_slice accepts from a lawful server is the part of the file at the requested offset, never empty before the end |
| SlicedDownload.AcceptedIffUsable | sensor-link-firmware/src/drivers/quectel.rs:713-810 | of a lawful server's answers exactly these are accepted: a 206 with a body, a 416, and a 200 with the whole file where it is one slice asked for from its start |
| SlicedDownload.MistakesEndIffShortPartialContent | sensor-link-firmware/src/drivers/quectel.rs:713-810 | a slice is wrongly taken for the last one exactly when a 206 carries less than the server had of the range |
| SlicedDownload.ShortPartialContentIsLawful | sensor-link-firmware/src/drivers/quectel.rs:713-810 | for every file of two bytes or more there is a lawful answer that ends its download after one byte |
| SlicedDownload.Driver.FetchSlice | sensor-link-firmware/src/drivers/quectel.rs:713-810 | success stores the slice at the offset and starts reading it at zero; failure leaves the bookkeeping alone and means that something went wrong |
| SlicedDownload.Driver.FetchSliceWithRetry | sensor-link-firmware/src/drivers/quectel.rs:675-693 | it gives up only after three faults, ending with no handle open |
| SlicedDownload.Driver.ReadSlice | sensor-link-firmware/src/drivers/quectel.rs:847-896 | what is read continues the file where the previous read stopped, however the handle was left |
| SlicedDownload.Driver.ReadSliceWithRetry | sensor-link-firmware/src/drivers/quectel.rs:814-844 | failed reads and a re-fetched slice neither repeat nor skip a byte, and it gives up only after three faults |
| SlicedDownload.Driver.ReadDownloadChunk | sensor-link-firmware/src/drivers/quectel.rs:900-931 | a chunk across slice boundaries continues the file and is short only at the slice taken for the last; it terminates |
| SlicedDownload.Driver.FinishDownload | sensor-link-firmware/src/drivers/quectel.rs:935-948 | the download is gone whatever the modem does |
| SlicedDownload.Driver.DownloadFile | sensor-link-firmware/src/drivers/quectel.rs:1975-1984 | success starts at byte zero of a new download; failure leaves none |
| SlicedDownload.Driver.ReadFileChunk | sensor-link-firmware/src/drivers/quectel.rs:1987-2006 | over any failure pattern the chunks form a prefix of the file, each of the requested size except at the end, and an end reached without a read error means the whole file |
| SlicedDownload.Driver.ReadToEnd | sensor-link-firmware/src/drivers/quectel.rs:1987-2006 | reading on from a server that satisfies ranges comes to the end with the whole file, whatever its length, unless three commands go wrong |
| SlicedDownload.Driver.DownloadAndRead | sensor-link-firmware/src/drivers/quectel.rs:1975-2006 | with no fault every file of such a server arrives |
| FirmwareClient.ChunkIsPiece | sensor-link-firmware/src/logic/client.rs:188-220 | the chunk read after k full pieces begins piece k of the file, and is all of it at full size or at the end |
| FirmwareClient.PiecesMakeTheFile | sensor-link-firmware/src/logic/client.rs:188-220 | the pieces in order make the file |
| FirmwareClient.Client.DownloadFirmwareUpdate | sensor-link-firmware/src/logic/client.rs:140-167 | success restarts the numbering; without a URL nothing happens, with one it fails only after a fault; a failure while streaming leaves the client streaming a download that is gone |
| FirmwareClient.Client.HandleUpdateState | sensor-link-firmware/src/logic/client.rs:188-228 | with every lawful server chunk events are numbered 0..n-1 and decode pieces 0..n-1, the last perhaps cut short; with one that satisfies ranges completion follows all pieces, except after a failed restart; reading to the end reports completion; a failure needs three faults or an undecodable piece, and no chunk follows it |
| FirmwareClient.Client.ReceiveAll | sensor-link-firmware/src/logic/client.rs:188-228 | with every piece decodable and unless three commands go wrong, all pieces are reported and then completion |
| FirmwareValidator.Validator.Update | sensor-link-firmware/src/meta/firmware.rs:210-277 | the loop over one slice moves the validator as the specification of one feed does and terminates |
| FirmwareValidator.FeedOnce | sensor-link-firmware/src/meta/firmware.rs:210-277 | one update with an image gives the image's meaning: header and hash of authenticated fields and data up to the recorded length |
| FirmwareValidator.SlicingDoesNotMatter | sensor-link-firmware/src/meta/firmware.rs:210-277 | every splitting whose first slice covers the header ends in the state of one update with the concatenation, unless the first slice is the header and the second empty |
| FirmwareValidator.TrailingBytesDoNotMatter | sensor-link-firmware/src/meta/firmware.rs:238-272 | once an image is decided no later byte changes the verdict or the hash |
| FirmwareValidator.CompletesIffFirstSliceCoversHeader | sensor-link-firmware/src/meta/firmware.rs:214-229 | an image of its recorded length, in any slices, completes if and only if the first non-empty slice covers the header |
| FirmwareValidator.HeaderIsFirst | sensor-link-firmware/src/meta/firmware.rs:214-229 | however an image is sliced, the header the validator holds is the one its first bytes say |
| FirmwareValidator.SplitHeaderLags | sensor-link-firmware/src/meta/firmware.rs:214-229 | with a split header the byte count stays behind the bytes seen for good |
| FirmwareValidator.HashCoversAuthRepeatedly | sensor-link-firmware/src/meta/firmware.rs:252-257 | in every slicing whose first slice covers the header, the hash of an image of its recorded length covers the authenticated fields once, plus once per empty slice right behind a header-sized first one, then the data |
| FirmwareValidator.AcceptedMeans | sensor-link-firmware/src/meta/firmware.rs:288-348 | an image is accepted if and only if its own header names this device, is strong and recent enough, and its tag matches its authenticated fields and data |
| FirmwareValidator.RejectedMeans | sensor-link-firmware/src/meta/firmware.rs:303-348 | which error is given for which image: the first of incomplete, invalid header or length, other device, too weak, too old, tag mismatch |
| FirmwareValidator.DataHashIsDigest | sensor-link-firmware/src/meta/firmware.rs:354-362 | the data hash is the digest of the authenticated fields and data up to the recorded length, and there is none for an undecided image |
| FirmwareValidator.DoneIff | sensor-link-firmware/src/meta/firmware.rs:210-277 | update returns true exactly if bytes are left over behind what decided the image, so not in the call that completes it |
| FirmwareValidator.SignedImageIsAccepted | sensor-link-firmware/src/meta/firmware.rs:371-388 | what sign produces is accepted by every validator for its device, in any slicing that covers the header first, unless it is a downgrade |
| Bootloader.ValidateNewFirmware | sensor-link-firmware/src/bootloader.rs:78-120 | stopping at the first unreadable fragment or at completion loses nothing of the verdict |
| Bootloader.InstalledIff | sensor-link-firmware/src/bootloader.rs:61-74 | the installed region is accepted exactly if it is genuine for the device and the minimum level |
| Bootloader.DecidesOverAccepted | sensor-link-firmware/src/bootloader.rs:164-202 | over an accepted image: up to date exactly if header or digest are equal, an update exactly if neither is and the stored image is signed, for the device, not older and verifies, rejected otherwise |
| Bootloader.DecidesOverInvalid | sensor-link-firmware/src/bootloader.rs:205-221 | over an invalid image: an update exactly if the stored image may be installed at all, bricked otherwise |
| Bootloader.DecidesWhy | sensor-link-firmware/src/bootloader.rs:196-221 | the error given is why the stored image may not be installed |
| Bootloader.AppFlash.ApplyUpdate | sensor-link-firmware/src/bootloader.rs:231-279 | whatever fails, the region is old, partly erased or partly written; if nothing fails it starts with the file's readable bytes and the result is the verdict on the region |
| Bootloader.CopyHasCandidate | sensor-link-firmware/src/bootloader.rs:231-279 | a region that starts with the file's readable bytes is judged as the stored file was |
| Bootloader.UpdateIsAppliedOnce | sensor-link-firmware/src/bootloader.rs:126-222 | after ShouldUpdate(h), a copy without failures is accepted as h and the next boot answers UpToDate(h) |
| Bootloader.PowerCutNeverBricks | sensor-link-firmware/src/bootloader.rs:126-222 | once an update was due, no content an interrupted copy leaves makes a later boot answer Bricked, and it asks for the same update unless the content is itself accepted |
| Bootloader.AppFlash.Boot | sensor-link-firmware/src/bootloader.rs:126-279 | one boot: a due update that fits and meets no flash error is applied as the header that was due and the next boot is up to date; one that fails anywhere leaves no brick |
| Bootloader.AppFlash.BootUntilApplied | sensor-link-firmware/src/bootloader.rs:126-279 | any number of interrupted copies followed by one that succeeds installs the update, with no boot on the way bricked |
| Bootloader.SameUpdateIsDue | sensor-link-firmware/src/bootloader.rs:126-222 | whatever is in flash, a stored file is due as the same update |
| Bootloader.CopyLeavesOldOrNew | sensor-link-firmware/src/bootloader.rs:231-279 | a copy that stops anywhere leaves the old content, nothing acceptable, or what was due, for every header format that shows when it is torn |
| Bootloader.DueHeader | sensor-link-firmware/src/bootloader.rs:78-120 | however the file is fragmented, the header that is due is read from its first bytes |
| Bootloader.VersionsNeverDecrease | sensor-link-firmware/src/bootloader.rs:126-222 | over every run of boots, with copies stopped anywhere, and file exchanges, the installed version never decreases as long as no file is exchanged while the installed image is not accepted |
| Bootloader.ExchangeWhileInvalidDowngrades | sensor-link-firmware/src/meta/firmware.rs:288-290 | a run in which exchanging the file after an interrupted copy installs an older version |
| FlashDelete.FlashDb.DeleteObject | sensor-link-firmware/src/storage/flash_db.rs:291-401 | at every crash point a reader that sees Unlocked sees the untouched or the cleared object, and none sees Corrupt that did not before; a delete that returns normally, from any state, leaves it unlocked, empty and under the next version; it fails only if an operation failed |
| FlashDelete.FlashDb.ClearBlock | sensor-link-firmware/src/storage/flash_db.rs:354-399 | one round keeps the object locked from the first format until the spare is done |
| FlashDelete.StatusMeans | sensor-link-firmware/src/storage/flash_db.rs:157-187 | unlocked exactly if the spare is the object's own with an empty first fragment, corrupt exactly if it is another's, locked otherwise |
| FlashDelete.FlashDb.Lock | sensor-link-firmware/src/storage/flash_db.rs:240-256 | afterwards the object is locked, or corrupt if it was; only the spare block changes |
| FlashDelete.InterruptedDeletes | sensor-link-firmware/src/storage/flash_db.rs:291-401 | any number of interrupted deletes in a row leaves no more than one may leave |
| FlashDelete.SpareIsAlwaysFormatted | sensor-link-firmware/src/storage/flash_db.rs:95-119 | no header makes a delete skip the spare block |
| FlashDelete.FormattedIsSkippedNextTimeIff | sensor-link-firmware/src/storage/flash_db.rs:354-399 | while fragment numbers do not wrap, the next delete skips a formatted block exactly if its expected first fragment is one of the object's; the erase count grows by one, plus one per whole object size below that fragment |
| SlopeArithmetic.ReverseSlopeConvert | sensor-link-firmware/src/logic/time_adjust.rs:624-647 | for every distance and correction the loop computes 16 corrections, stopping early only when nothing would change; in the exact range that is the truncated series |
| SlopeArithmetic.ExactStaysExact | sensor-link-firmware/src/logic/time_adjust.rs:602-612 | a conversion that starts in the exact range never reaches the floating-point branch |
| SlopeArithmetic.ReverseAccuracy | sensor-link-firmware/src/logic/time_adjust.rs:624-647 | the result times (10^9 - c) is within 16*10^9 + abs(dt)*abs(c)/2^16 of dt*10^9 |
| SlopeArithmetic.RoundTrip | sensor-link-firmware/src/logic/time_adjust.rs:598-647 | reverse then forward conversion returns within 17 + abs(dt)*abs(c)/(2^16*10^9) us |
| SlopeArithmetic.SmallCorrectionSettles | sensor-link-firmware/src/logic/time_adjust.rs:624-647 | for corrections up to 100 ppm three iterations suffice |
| SlopeArithmetic.SmallRoundTrip | sensor-link-firmware/src/logic/time_adjust.rs:598-647 | for those the round trip is within 3 us |
| SlopeArithmetic.ForwardMono | sensor-link-firmware/src/logic/time_adjust.rs:598-612 | forward conversion keeps order |
| SlopeArithmetic.ReverseMono | sensor-link-firmware/src/logic/time_adjust.rs:624-647 | reverse conversion keeps order, also when alternating corrections are cut off |
| ClockDrift.ConversionsKeepOrder | sensor-link-firmware/src/logic/time_adjust.rs:528-592 | none of the four conversions reverses the order of two timestamps in the exact range, whatever the floating-point branch does |
| ClockDrift.ConversionRoundTrip | sensor-link-firmware/src/logic/time_adjust.rs:528-592 | converting and back returns within the stated error, 3 us up to 100 ppm |
| ClockDrift.ClockDriftEstimate.constructor | sensor-link-firmware/src/logic/time_adjust.rs:345-357 | the calibration starts within bounds and never more certain than 100 ppb |
| ClockDrift.ClockDriftEstimate.UpdateTempCorrection | sensor-link-firmware/src/logic/time_adjust.rs:366-400 | bounds are kept, nothing overflows, and the recorded uncertainty is the largest distance so far between two errors successive corrections allow |
| ClockDrift.ClockDriftEstimate.UpdateNetworkTime | sensor-link-firmware/src/logic/time_adjust.rs:408-494 | for all i64 timestamps bounds are kept and nothing overflows; the decision is the one of unbounded arithmetic |
| ClockDrift.ClockDriftEstimate.Total | sensor-link-firmware/src/logic/time_adjust.rs:501-515 | error and uncertainty are the sums, held within bounds |
| ClockDrift.ClockDriftEstimate.RawToTemp | sensor-link-firmware/src/logic/time_adjust.rs:528-542 | for every timestamp, the conversion the order and round-trip lemmas are about |
| ClockDrift.ClockDriftEstimate.TempToRaw | sensor-link-firmware/src/logic/time_adjust.rs:544-557 | its inverse direction |
| ClockDrift.ClockDriftEstimate.TempToDrift | sensor-link-firmware/src/logic/time_adjust.rs:559-575 | the first conversion pins the clocks together, later ones use that point |
| ClockDrift.ClockDriftEstimate.DriftToTemp | sensor-link-firmware/src/logic/time_adjust.rs:577-592 | its inverse direction |
| ClockDrift.Measure | sensor-link-firmware/src/logic/time_adjust.rs:429-466 | for all i64 timestamps the comparison stays in range; where no difference saturates it decides and measures as unbounded arithmetic does |
| ClockDrift.ErrorQuotient | sensor-link-firmware/src/logic/time_adjust.rs:453-454 | the saturating quotient stays above -100%, agrees with the exact one on the threshold and equals it for offsets up to 9223 s |
| ClockDrift.SlowClockIsNotRejected | sensor-link-firmware/src/logic/time_adjust.rs:453-466 | a clock 90% slow is measured, not rejected |
| ClockDrift.UnreasonableErrorIsMeasuredIff | sensor-link-firmware/src/logic/time_adjust.rs:442-466 | an error of 50% or more is measured exactly when both intervals exceed a minute, the latency is less than half of what it leaves of the network's, and the local clock ran at most half as fast |
| SpiFlash.ValidateMeans | sensor-link-firmware/src/drivers/spi_flash.rs:48-70 | exactly the descriptors whose page is a power of two dividing the sector, which divides the chip and the largest sector, are accepted, and the first condition that fails is the error |
| SpiFlash.Validate | sensor-link-firmware/src/drivers/spi_flash.rs:48-70 | an accepted descriptor has non-zero, nested page, sector and chip sizes |
| SpiFlash.BoundsCheck | sensor-link-firmware/src/drivers/spi_flash.rs:581-596 | nothing out of bounds passes, and nothing in bounds is refused below 2^32 |
| SpiFlash.FrameRoundTrip | sensor-link-firmware/src/drivers/spi_flash.rs:565-579 | the chip reads back the address a frame was made from exactly if four bytes are sent or the address is below 16 MB |
| SpiFlash.FramesOnTheWire | sensor-link-firmware/src/drivers/spi_flash.rs:565-579 | opcodes and frames have the documented bytes |
| SpiFlash.ProgramWithinPage | sensor-link-firmware/src/drivers/spi_flash.rs:479-516 | a program command that stays in its page lays the data over the memory |
| SpiFlash.ProgramAcrossPageWraps | sensor-link-firmware/src/drivers/spi_flash.rs:479-482 | one that leaves its page damages the page's start instead |
| SpiFlash.SPIFlash.InitAndCheckAddr | sensor-link-firmware/src/drivers/spi_flash.rs:518-549 | afterwards driver and chip agree on the address length and the chip is awake, also after a mode switch that failed half-way |
| SpiFlash.SPIFlash.Erase | sensor-link-firmware/src/drivers/spi_flash.rs:420-471 | success leaves the range erased; success or failure leaves the rest of the memory alone; it fails only out of bounds, misaligned or after a fault |
| SpiFlash.SPIFlash.Program | sensor-link-firmware/src/drivers/spi_flash.rs:476-516 | success lays the data over the memory, no command crosses a page, and nothing outside the addressed bytes changes even on failure; it fails only out of bounds or after a fault |
| SpiFlash.ErasedRange.Write | sensor-link-firmware/src/drivers/spi_flash.rs:626-630 | bytes not written before come out equal to the data, bytes not yet written stay 0xFF, all other memory is unchanged; refused exactly outside the range |
| SpiFlash.ErasedRange.WriteRelative | sensor-link-firmware/src/drivers/spi_flash.rs:636-648 | the same for relative offsets, refused also for an empty write at the end |
| ActiveConfig.SettledIsPublishedWhenIdle | sensor-link-firmware/src/logic/active_config.rs:95-137 | over every history, readers have the value published last when no binding was live most recently |
| ActiveConfig.ActiveConfig.Acquire | sensor-link-firmware/src/logic/active_config.rs:95-106 | the invariant: the count is the number of live bindings, each holds the active value, a pending value exists only beside one, and the fields hold what the history promises |
| ActiveConfig.ActiveConfig.Clone | sensor-link-firmware/src/logic/active_config.rs:172-184 | cloning adds one binding to the same value and keeps the invariant |
| ActiveConfig.ActiveConfig.Drop | sensor-link-firmware/src/logic/active_config.rs:187-195 | dropping the last binding lets the pending value in, dropping another changes no value |
| ActiveConfig.ActiveConfig.SetPending | sensor-link-firmware/src/logic/active_config.rs:108-118 | a value published while bindings live waits, otherwise it is active at once |
| ReservingChannel.RunInv | sensor-link-firmware/src/sync/reserving_sender.rs:123-156 | in every interleaving a waiting sender has a full queue, a notification or a receiver about to notify; items come out in order |
| ReservingChannel.ReservedSendSucceeds | sensor-link-firmware/src/sync/reserving_sender.rs:57-66 | a granted reservation's send is never handed back |
| ReservingChannel.WaiterIsGranted | sensor-link-firmware/src/sync/reserving_sender.rs:232-248 | a parked sender beside a queue with room is granted by its own two steps once a pending notify is done |
| ReservingChannel.GivingUpIsFree | sensor-link-firmware/src/sync/reserving_sender.rs:46-53 | dropping a reservation or a wait changes nothing but the sender |
| ReservingChannel.StickinessIsNeeded | sensor-link-firmware/src/utils/sync.rs:20-30 | with a notifier that forgets, a run parks the sender beside an empty queue for good |
| BootStats.SetFlag | sensor-link-firmware/src/drivers/boot_stats.rs:78-81 | marks the register and keeps its count |
| BootStats.IncrementBy | sensor-link-firmware/src/drivers/boot_stats.rs:84-89 | adds to the count, saturating, and keeps the flag |
| BootStats.Reset | sensor-link-firmware/src/drivers/boot_stats.rs:217-232 | zeroes the seven registers, marks both uptimes valid, leaves the rest |
| BootStats.TryFromRegistersOr | sensor-link-firmware/src/drivers/boot_stats.rs:105-212 | the in-place update computes the boot the refinement lemma is about, and refuses short arrays untouched |
| BootStats.UnmarkedBootReports | sensor-link-firmware/src/drivers/boot_stats.rs:113-130 | with neither uptime marker valid a boot reports its fallback reason as the first boot and no uptime, whatever the registers held |
| BootStats.OneMarkerInvalid | sensor-link-firmware/src/drivers/boot_stats.rs:113-134 | with one marker invalid only that uptime is lost |
| BootStats.LostTotalRefines | sensor-link-firmware/src/drivers/boot_stats.rs:113-134 | losing the total uptime register keeps every count and mark of the ledger |
| BootStats.LostCurrentRefines | sensor-link-firmware/src/drivers/boot_stats.rs:113-134 | losing the current one is as if the session had had no uptime |
| BootStats.RunRefines | sensor-link-firmware/src/drivers/boot_stats.rs:105-212 | over any run of boots, from a reset or from registers never written, the registers hold a ledger of reports, uptime below 1800 and open marks, and every report is the ledger's: Loop exactly past a threshold |
| BootStats.LedgerIsRecent | sensor-link-firmware/src/drivers/boot_stats.rs:156-201 | the ledger's reports and uptime are those of the boots since the last one that found a loop or ended the interval |
| BootStats.MarkIsLeftIff | sensor-link-firmware/src/drivers/boot_stats.rs:139-154 | a boot leaves a mark behind if and only if the interval has not passed, no threshold is passed and two or more were pending; it leaves all but the reported one |
| BootStats.KeptMarksAreFlagged | sensor-link-firmware/src/drivers/boot_stats.rs:105-212 | in every run only causes with a flag are pending, so that condition is the one for every boot |
| BootStats.LeftoverMarksAreReportedInOrder | sensor-link-firmware/src/drivers/boot_stats.rs:147-154 | with nothing newly marked or cleared, boot j reports the pending mark of rank j |
| BootStats.StaleMarkIsReported | sensor-link-firmware/src/drivers/boot_stats.rs:139-154 | of a fault and a panic marked together the panic is reported by the next boot, which had none |

## Left out

- ClockDrift.ClockDriftEstimate.UpdateNetworkTime: the floating-point weighing is an arbitrary function followed by the code's clamps, because rounding is not what the bounds rest on.
- ClockDrift.ConversionsKeepOrder: for distances below i32::MAX; beyond, the single-precision branch is an arbitrary function. i64 overflow of a resulting timestamp is not modelled.
- Delivery.NothingIsLost: order within the store, bounded incoming queues and the serializer's own timeouts are not modelled, only where each item is.
- Delivery.ReplyLeavesOutWhatIsIncoming: an item that could not be stored counts as failed, since the code drops it or sends it unconfirmed.
- Backoff.AttemptsStartInTime: holds for runs of less than 2^32 s, where the cast of the elapsed time to 32 bits is exact.
- SlicedDownload.Driver.ReadFileChunk: whole-file delivery is for servers that send all they have of a range (the exact condition is `MistakesEndIffShortPartialContent`) and files that leave 16000 bytes below 2^32; delays and `+QHTTPGET` bookkeeping are not modelled.
- FirmwareClient.Client.HandleUpdateState: whole-file completion is for servers that satisfy ranges, and all of it for files of fewer than 65536 chunks, since the sequence number is 16 bits wide; status messages to the server are not modelled.
- Bootloader.UpdateIsAppliedOnce: for stored files whose first fragment covers the header and is not a bare header before an empty fragment, which is where slicing is harmless.
- Bootloader.VersionsNeverDecrease: a header of which a part is missing or erased is taken to be rejected, which depends on the header format and the signature.
- Delivery.ConfirmedOnlyAfterSend: the upload receiver has no background channels, as the one built by `create_reserving_channel`; `Connection` has them.
- FlashDelete.FlashDb.DeleteObject: only lock, header and emptiness of blocks are modelled; fragment contents, the modes EraseSkipSpare and SoftVersion and 32-bit overflow of the products behind fragment numbers are not.
- SpiFlash.SPIFlash.Program: a chip still busy after a timeout counts as failed and finished; reading, statistics and chip detection are not modelled.
- ActiveConfig.ActiveConfig.Acquire: the counter is unbounded.
- DoubleBuffer.ReadReturnsCommittedValue: weak-memory reordering is not modelled, nor are `version` and `new_data_available_since`, which are advisory.
- Cryptography, JSON, postcard, q15 and base64 codecs: uninterpreted or absent.
- `TimeCorrection` and `CombinedTime`: heuristic offset following above the estimate.
- AT command set-up, TLS, registration and URC handling of the modem driver.
- The circular store's block scan and `PeekQueue`: the store is taken from its trait contract.
- Sensor drivers, factory test, provisioning tool and topic, config-image and section-header codecs: thin or easy next to the rest.

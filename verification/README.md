# Verification of usbq, the DVB bridges and their tools

Dafny models of the parts of the repository where concurrency, wrapped buffers, wire formats
or undo paths make mistakes likely, with proofs over every input, every run or every
reachable state. `dafny verify dfyconfig.toml` checks everything.

| Files | What they model |
|---|---|
| `Ring`, `UsbqStream`, `StreamProtocol`, `CallbackRace` | the asynchronous USB stream of `usbq.c`: overwrite-oldest byte ring, URB pool, callbacks, open / close / restart, and the callback cut at its critical sections |
| `Framer`, `PidDump`, `SyncSearch`, `EndToEnd`, `PidList` | `dvb_pid_dump`: transport-stream framing, PID filter, PID list parser and printer; and the whole path from URB completion to standard output |
| `Hotplug` | the hotplug event queue and the wake pipe it shares with the `dvb_devices` watch loop |
| `Lifecycle` | the reference counts of the libusb context and the event thread |
| `I2cBus`, `I2cMasters`, `I2cTransfer`, `I2cMux`, `Regmap` | i2c messages through three bridges, through nested muxes, and as register accesses on any of the bridges |
| `Em28xxShadow`, `DvbskyStream`, `Firmware` | em28xx register shadows, dvbsky stream control, dib0700 firmware upload |

Code that updates fields or buffers in place is a class or a method with a loop, proved equal
to a function on values; the theorems are then about that function and about all runs of it.
Where several threads interleave, one atomic section of the C code is one step of a state
machine.

## Modelling choices

The stream (`StreamProtocol`):

- A transfer is idle, in flight, or in flight with an accepted cancel. A submit is refused
  unless the transfer is idle, and may be refused even then. A cancel is accepted exactly
  when the transfer is in flight, and an accepted cancel is followed by exactly one callback,
  with status CANCELLED; only that status lowers `pending_cancel` (usbq/src/usbq.c:425-433).
- In `StreamProtocol` and `UsbqStream` a callback body is one step. In the code it is not:
  `stopping` is read without the lock (usbq/src/usbq.c:438), the push, the look at the flags
  (451-454) and, after a refused resubmit, the setting of `stopping` (464-467) and the read of
  the wake descriptor (468, 386-390) are critical sections of their own, and the submit (458)
  is in none. `CallbackRace` cuts the callback at each of these places and between the moment
  libusb is done with a transfer and the first of them, with one event thread. Undisturbed,
  the parts are the one step again (`UndisturbedIsDeliver`). The end-to-end theorem is about
  the parts.
- The cancel loops run under the mutex, so each is one step. Restart's submits do not, so
  each is a step of its own with callbacks in between. A refused submit of the owner and what
  it then does under the mutex are one step: nothing happens at the refusal itself.
- A stream has one owning thread for open, restart and close; reads and flushes run beside
  it until close begins.
- `usbq_evt_release` is one step although it drops its lock while joining.

Hotplug: an enqueuer is two steps, the locked half and the write to the pipe it saw under the
lock; the write is lost when the pipe is full, which the non-blocking mode makes harmless.
Init, watch loop and shutdown belong to one thread; enqueuers are any number of threads.
`HotplugQueue` holds the same steps on the array.

Devices: a failed em28xx register write leaves the register as it was; a control OUT is taken
whole or not at all, before the status that may still report it as failed; the dib0700 bridge
goes by the length in the header of a request; a dvbsky frame not written whole is ignored by
the bridge, and the reply to one that is waits for the IN transfer, replacing a reply that was
never read. What a slave answers may depend on the whole history of the bus. A register read
that succeeds brings its byte; the code would take a control read of no bytes for the value 0.
Runs of the em28xx model start after bring-up, which sets register 0x06
(bridges/em28xx/dvb/src/dvb_em28xx.c:373) and whose GPIO sequence clears 0x5f
(bridges/em28xx/dvb/src/boards.c:58).

Where the code does less than its comments or callers might expect, the limit is proved
exactly:

- The firmware format comment (bridges/dib0700/bridge/src/dib0700_fw.c:7-23) gives the
  address high byte first in the record and in the packet, but the code reads it low byte
  first and writes it high byte first, so the two bytes change places on the way. The model
  follows the code: the packets give back the blob once those bytes are swapped back.
- A cancel loop that takes the mutex while a callback stands between its look at the flags
  and its submit lets that transfer be freed in flight (close, failing open) or submitted
  twice (restart). With another transfer in flight, any other point of a callback is harmless,
  because the owner has to wait for that transfer and so for the callback. With none, close
  and failing open free the stream under the callback wherever it stands, up to its last lock
  after a refused resubmit, and a restart lets it submit twice if it has still to look at the
  flags. `CallbackRace.SafeIffMayCancel` says this as an if-and-only-if;
  `FreedUnderCallback`, `FreedInFlight` and `SubmittedTwice` are runs from open that show it.
- `frontend_teardown` ignores the answer of its last `em28xx_capture_start` and clears the
  flag regardless, so it can leave a capture bit set that the flag denies:
  `Em28xxShadow.CaptureBitsAreTheFlags` says exactly when, `TeardownCanLoseTs` shows a run.
- A register write that is reported as failed may have taken effect, on em28xx (bad status
  after the request) and dvbsky (lost reply), never on dib0700:
  `Regmap.Regmap.Write`, `Regmap.Regmap.UpdateBits`, and `Regmap.FailedWriteTakesEffect` for a case.
- `regmap_bulk_write` accepts blocks of 63 and 64 bytes, whose messages have 64 and 65; a
  dib0700 header has six length bits, so the call answers 0 and no register changes:
  `Regmap.Regmap.BulkWrite`. em28xx refuses 64, dvbsky 60 and more.
- A mux given only one of its two callbacks is not well-bracketed:
  `I2cMux.BracketedIffPaired`.
- em28xx cannot hold the bus after a read and probes an empty message with a read of one
  byte, a dib0700 header describes at most 63 bytes, and a dvbsky frame has room for one
  address and none for an empty write before a read: the three `Decodes` lemmas of `I2cBus`.

## Model

| member | source | states |
|---|---|---|
| UsbqStream.UsbqStream.RingPush | usbq/src/usbq.c:397-419 | the wrapped array holds the last `ring_cap` bytes of old contents followed by new data, any length included, and the overflow counter grows by exactly what was lost |
| UsbqStream.UsbqStream.MakeRoom | usbq/src/usbq.c:404-410 | afterwards the data fit, and exactly the oldest bytes that had to go are gone and counted |
| UsbqStream.UsbqStream.Append | usbq/src/usbq.c:411-418 | the at most two copies add the data at the end of the contents, across the end of the array too |
| UsbqStream.UsbqStream.Read | usbq/src/usbq.c:594-614 | min(room, bytes held) bytes are answered: the oldest, copied out in order and removed, the rest of the buffer untouched; error and empty answers change nothing |
| UsbqStream.UsbqStream.WaitForData | usbq/src/usbq.c:580-593 | the timed wait, with the stream open or in the middle of a restart, ends at the first wake-up that finds bytes or a stopping stream, or with the last; pool and ring are then what the callbacks of the rounds so far have made them |
| UsbqStream.UsbqStream.ReadTimed | usbq/src/usbq.c:577-614 | a read with its wait, in any state in which the caller holds the stream: which wake-up ends the wait, what the callbacks have left in the ring by then, and min(room, bytes then held) bytes answered; 0 only after the whole wait |
| UsbqStream.UsbqStream.Flush | usbq/src/usbq.c:616-621 | the contents are empty, the counter is kept |
| UsbqStream.UsbqStream.TransferCallback | usbq/src/usbq.c:421-470 | run without a break: the bytes of a transfer that completed or timed out enter the ring unless the stream is stopping, those of any other do not; the transfer is counted, left or resubmitted as the protocol step says; the broken form is `CallbackRace` |
| UsbqStream.UsbqStream.Resubmit | usbq/src/usbq.c:451-469 | a callback resubmits only an unmarked transfer of a stream that is not stopping, and a refusal stops the stream |
| UsbqStream.WaitedMeans | usbq/src/usbq.c:580-593 | the wake-up at which a wait ends, and that every earlier one found an empty ring and a live stream |
| UsbqStream.UsbqStream.DeliverAll | usbq/src/usbq.c:421-470 | whole callbacks of any transfers libusb owns, cancelled ones too, with any status and any resubmit refused: pool and ring end as one callback after the other makes them, the pool invariant of the owner they interrupt is kept, and the stream is stopped only by a refusal |
| UsbqStream.UsbqStream.CancelUrbs | usbq/src/usbq.c:552-558 | marks each unmarked transfer once and counts precisely the cancels libusb accepted |
| UsbqStream.UsbqStream.WaitForCancels | usbq/src/usbq.c:559-561 | the wait terminates, callbacks arriving in any order, with every transfer idle and the ring untouched |
| UsbqStream.UsbqStream.Close | usbq/src/usbq.c:544-575 | with no callback under way, asks for a cancel of each unmarked transfer in turn and reaches its frees with every transfer idle and nothing pending; with one, `CallbackRace` |
| UsbqStream.UsbqStream.AbandonOpen | usbq/src/usbq.c:508-525 | so does the failing path of open, whichever submit was refused |
| UsbqStream.UsbqStream.SubmitAll | usbq/src/usbq.c:501-526 | open submits each transfer in turn and succeeds exactly when every submit does, whatever callbacks run in between; otherwise it cancels the submitted ones in turn and the pool is quiescent |
| UsbqStream.UsbqStream.Restart | usbq/src/usbq.c:623-664 | on a live stream: a cancel of each transfer in turn, then, all being back, a submit of each in turn up to the first refused; succeeds exactly when none is, whatever callbacks run between them; if those are not refused either, then with the whole pool in flight and unmarked; the ring gets only what callbacks push |
| UsbqStream.UsbqStream.TakeBack | usbq/src/usbq.c:631-648 | restart up to its submits: one cancel of each transfer, all of them back idle and unmarked, the ring untouched |
| UsbqStream.UsbqStream.UnmarkAll | usbq/src/usbq.c:645-647 | clears every cancel mark and nothing else |
| UsbqStream.UsbqStream.ResubmitAll | usbq/src/usbq.c:652-663 | answers 0 exactly when every submit is accepted, callbacks running in between, and sets `stopping` otherwise |
| UsbqStream.UsbqStream.SubmitEach | usbq/src/usbq.c:652-662 | the submit loop stops at the first refusal, exactly the accepted part of the pool having been submitted |
| UsbqStream.WindowAppend | usbq/src/usbq.c:411-418 | writing behind the tail modulo the capacity appends to the contents read from the head |
| UsbqStream.WindowDrop | usbq/src/usbq.c:610-611 | moving the head modulo the capacity drops from the front of the contents |
| UsbqStream.PushInTwoTrims | usbq/src/usbq.c:399-410 | trimming the source and then dropping from the head is one keep-the-last-`ring_cap` |
| UsbqStream.CopyIn | usbq/src/usbq.c:411-416 | the two copies write the free part of the ring and no other byte |
| UsbqStream.CopyOut | usbq/src/usbq.c:604-609 | the two copies read the used part of the ring in order |
| Ring.PushKeeps | usbq/src/usbq.c:397-419 | a push keeps the ring equal to the tail of everything pushed and every byte accounted for |
| Ring.PushKeepsNewest | usbq/src/usbq.c:397-419 | a push leaves as much as fits of old and new bytes, the newest, and counts exactly the rest |
| Ring.ReadTakes | usbq/src/usbq.c:594-613 | a read takes all that was asked for or empties the ring, and loses nothing; without room or bytes it changes nothing |
| Ring.HistoryIs | usbq/src/usbq.c:397-419 | what the history records of each push, read and flush |
| Ring.ReadKeeps | usbq/src/usbq.c:594-613 | a read delivers bytes at strictly later positions of the pushed stream than all before |
| Ring.RunKeeps | usbq/src/usbq.c:397-419 | over all runs: pushed = delivered + overflowed + flushed + held, the ring is the last bytes pushed, nothing is delivered twice, reordered or altered |
| Ring.LosslessIsPrefix | usbq/src/usbq.c:577-614 | without overflow and flush the reader has exactly a prefix of the pushed stream |
| StreamProtocol.CancelFirstEffect | usbq/src/usbq.c:552-558 | which transfers a cancel loop touches and how, and that counting only accepted cancels keeps the counter exact |
| StreamProtocol.DeliverPushes | usbq/src/usbq.c:436-440 | the bytes of a transfer that completed or timed out enter the ring of a stream that is not stopping, and no other bytes do |
| StreamProtocol.CallbackIs | usbq/src/usbq.c:421-470 | what a callback does to its transfer, the counter and the flag, for each status, mark and answer; nothing else changes |
| StreamProtocol.OwnerSteps | usbq/src/usbq.c:501-664 | where each step of open, close, restart, read and flush leads, with the transfers in flight after it |
| StreamProtocol.StepKeeps | usbq/src/usbq.c:421-664 | each step of owner, event thread or reader keeps the pool invariant |
| StreamProtocol.RunKeeps | usbq/src/usbq.c:421-664 | so does every run |
| StreamProtocol.PendingIsExact | usbq/src/usbq.c:425-433 | in every reachable state `pending_cancel` is the number of accepted cancels still owed a callback, and every CANCELLED callback finds it positive |
| StreamProtocol.FreedIsQuiescent | usbq/src/usbq.c:559-573 | when the pool is freed every transfer is idle and no callback, submit, read or flush can follow; callbacks whole, see `CallbackRace.SafeIffMayCancel` for parts |
| StreamProtocol.WaitEnds | usbq/src/usbq.c:518-520 | while the owner waits each callback brings the count down by one and one is always to come, so the wait ends after exactly `pending_cancel` callbacks |
| StreamProtocol.NeverDoubleSubmits | usbq/src/usbq.c:451-458 | in every reachable state, owner and callback submit only idle transfers, between the submits of a restart too; callbacks whole, see `CallbackRace.SafeIffMayCancel` for parts |
| StreamProtocol.RestartFindsAllIdle | usbq/src/usbq.c:641-648 | restart's wait ends with every transfer idle and unmarked |
| StreamProtocol.PoolStaysFull | usbq/src/usbq.c:652-662 | a live stream that is not in the middle of a restart has its whole pool in flight; part-way, exactly the submitted part |
| StreamProtocol.RunIsRingRun | usbq/src/usbq.c:623-664 | every run, with any restarts in it, is a run of the ring in which open, restart and close have no part |
| StreamProtocol.PushNeverWakesOwner | usbq/src/usbq.c:440-441 | no push happens while close or restart waits on the condition variable it signals |
| StreamProtocol.StoppingIsFinal | usbq/src/usbq.c:435-470 | `stopping` is never cleared; under it no byte enters and each callback retires a transfer for good |
| StreamProtocol.DyingStreamDrains | usbq/src/usbq.c:594-603 | from then on reads hand out what the ring held, in order, whatever else runs |
| StreamProtocol.DrainedMeansENODEV | usbq/src/usbq.c:596-603 | a drained dead stream answers -ENODEV to every later read |
| StreamProtocol.ReadAnswers | usbq/src/usbq.c:594-613 | each of the three answers with its exact condition; 0 only when empty and alive; bytes are all that was asked for or all there are |
| CallbackRace.UndisturbedIsDeliver | usbq/src/usbq.c:421-470 | the parts of a callback, run without interruption, are the one step of `StreamProtocol`, for every status and answer |
| CallbackRace.EnterDecides | usbq/src/usbq.c:436-438 | the unlocked read of `stopping` decides once and for all what the later push adds, by status |
| CallbackRace.PushPushes | usbq/src/usbq.c:439-443 | and that is what enters the ring, whatever has happened since |
| CallbackRace.PartsAre | usbq/src/usbq.c:451-469 | the look at the flags, the submit, the setting of `stopping` and the wake, each with its effect and what follows it |
| CallbackRace.PendingStaysExact | usbq/src/usbq.c:425-433 | `pending_cancel` stays the number of accepted cancels not yet counted down, under every interleaving of the parts, harmless or not |
| CallbackRace.StepKeepsTidy | usbq/src/usbq.c:421-664 | every step keeps the invariant of the cut protocol, provided a cancel loop is begun when it may be |
| CallbackRace.CarefulRunIsTidy | usbq/src/usbq.c:421-664 | so does every run |
| CallbackRace.TidyIsSafe | usbq/src/usbq.c:559-573 | under that invariant nobody is about to submit a transfer that is not idle, and a freed pool is idle with no part of a callback to come and no step possible |
| CallbackRace.SafeIffMayCancel | usbq/src/usbq.c:544-561 | at every cancel loop of open, close and restart in every such run: all continuations are safe if and only if no callback is under way; or a transfer is in flight and the callback is not between look and submit; or, for a restart, its resubmit has been refused |
| CallbackRace.CarelessGoesWrong | usbq/src/usbq.c:451-458 | otherwise a continuation is constructed that frees under a callback or in flight, or submits a transfer that is not idle |
| CallbackRace.FreedUnderCallback | usbq/src/usbq.c:459-469 | a run from open with a pool of one: a refused resubmit, then close frees the stream before the callback's last lock |
| CallbackRace.FreedInFlight | usbq/src/usbq.c:544-567 | a run from open with a pool of two in which close frees a transfer in flight |
| CallbackRace.SubmittedTwice | usbq/src/usbq.c:623-653 | a run from open with a pool of two in which restart comes to submit a transfer in flight |
| CallbackRace.LiveMayCancelIff | usbq/src/usbq.c:451-458 | for a live stream with two transfers or more the one bad moment is between the look at the flags and the submit |
| CallbackRace.StoppingLetsOnePushIn | usbq/src/usbq.c:436-440 | after `stopping` is set the ring receives at most what the callback that had read it in time still pushes |
| CallbackRace.StepKeepsHistory | usbq/src/usbq.c:397-419 | the ring and its history stay in step under every interleaving of the parts |
| Framer.TsPidBits | tools/dvb_pid_dump.c:78-80 | the 13 bits of the second and third byte, section 2.4.3.2 of ISO/IEC 13818-1 |
| Framer.FindSync | tools/dvb_pid_dump.c:278-284 | the least position with two sync bytes one packet apart, or none |
| Framer.Iterate | tools/dvb_pid_dump.c:302-334 | each iteration of the packet loop consumes at least one byte, a resync included; what it does with a good and a bad byte is in the next two rows |
| Framer.TakesPacket | tools/dvb_pid_dump.c:324-333 | at a sync byte: one packet counted, written if the filter passes everything or lists its 13-bit PID, 188 bytes on, lock kept |
| Framer.Resyncs | tools/dvb_pid_dump.c:304-323 | at any other: one bad sync counted, and either the lock is kept and the position is the least one behind with two sync bytes 188 apart, or there is none and lock and stage are given up |
| Framer.DrainVisits | tools/dvb_pid_dump.c:301-334 | the whole packet loop of a locked framer as the positions it visits: packets exactly at those with a sync byte, a bad sync at each other, and the lock lost exactly if it comes to a bad byte with no sync position behind it |
| Framer.StageLeft | tools/dvb_pid_dump.c:285-297 | a trim keeps the last 376 bytes, a lock what follows the sync position |
| Framer.IterateSound | tools/dvb_pid_dump.c:302-334 | one packet or one resync keeps the accounting of packets, skipped bytes and output |
| Framer.DrainSound | tools/dvb_pid_dump.c:301-334 | so does the whole packet loop |
| Framer.FeedSound | tools/dvb_pid_dump.c:264-340 | so does one iteration of the outer loop, with search and trimming |
| Framer.FeedsSound | tools/dvb_pid_dump.c:249-340 | for any input cut into reads in any way: packets are disjoint in-order slices of the input starting with 0x47, the output is their filtered sequence, and at the loop head the stage is below 188 bytes if locked and at most 376 otherwise |
| Framer.EveryByteAccountedFor | tools/dvb_pid_dump.c:304-323 | with skipped the set of positions before the stage that lie in no packet taken: bytes read = 188 * total + skipped + staged, and bad_sync <= skipped |
| Framer.SkippedSize | tools/dvb_pid_dump.c:301-339 | disjoint packets leave all positions but 188 each |
| Framer.DrainWrites | tools/dvb_pid_dump.c:302-334 | the packet loop only appends to its output |
| PidDump.PidDump.SearchSync | tools/dvb_pid_dump.c:278-315 | the search loops find the least position from their start with two sync bytes 188 apart, or there is none |
| PidDump.PidDump.DropFront | tools/dvb_pid_dump.c:335-339 | the memmove keeps exactly the unconsumed bytes |
| PidDump.PidDump.OnePacket | tools/dvb_pid_dump.c:303-333 | counters, output, lock and position after one iteration, for a sync byte and for any other, and the state in which a refused write ends the dump |
| PidDump.PidDump.Resync | tools/dvb_pid_dump.c:304-323 | the branch for a bad byte, on the array: on to the least sync position with the lock kept, or lock and stage given up because there is none |
| PidDump.PidDump.FilterMatch | tools/dvb_pid_dump.c:114-118 | the filter loop answers whether everything passes or the PID is in the list |
| PidDump.PidDump.DrainStage | tools/dvb_pid_dump.c:301-334 | the packet loop on the staging array is the functional drain; if standard output refuses a packet, what has been written is a proper prefix of what should have been |
| PidDump.PidDump.ProcessPackets | tools/dvb_pid_dump.c:301-339 | loop and compaction are completed exactly when standard output takes every matching packet |
| PidDump.PidDump.TryLock | tools/dvb_pid_dump.c:277-299 | locks on the least sync position, or trims to the last 376 bytes |
| PidDump.PidDump.ProcessChunk | tools/dvb_pid_dump.c:264-340 | one iteration of the outer loop on the array is the functional framer step, exactly when standard output takes every matching packet |
| SyncSearch.StageSearchIsStreamSearch | tools/dvb_pid_dump.c:278-292 | searching the trimmed stage finds what searching everything read since would |
| SyncSearch.SearchStep | tools/dvb_pid_dump.c:277-299 | each read either keeps searching without losing a candidate or locks on the least one |
| SyncSearch.SyncSearchIsChunkIndependent | tools/dvb_pid_dump.c:277-299 | from an unlocked empty stage, the lock is at the least offset with two sync bytes 188 apart, for every way of cutting the stream into reads |
| EndToEnd.FeedsSettled | tools/dvb_pid_dump.c:264-340 | on an aligned stream the framer has taken exactly the whole packets read, skipping nothing |
| EndToEnd.StepKeeps | usbq/src/usbq.c:577-614 | what the framer has been fed is what the reader has been given, at every step of the combined system, callbacks in parts |
| EndToEnd.DumpsExactlyTheStream | tools/dvb_pid_dump.c:264-340 | for every interleaving of the parts of callbacks and every sizing, without overflow and flush, an aligned stream yields exactly its first floor(R/188) packets (none for R <= 188) and writes the matching ones in order |
| EndToEnd.ReadsAlwaysFit | tools/dvb_pid_dump.c:265-272 | in every run of the combined system each read asks for 48 KiB or what is left of the 49340-byte stage, at least one byte, and is never refused as invalid |
| PidList.ParsePidFilter | tools/dvb_pid_dump.c:92-112 | accepts and refuses as the parser on values does, filling the filter |
| PidList.ParsesIff | tools/dvb_pid_dump.c:92-112 | for every string: nothing is PID 0, -1 is everything, any other is accepted exactly when strtol reads it as 1 to 32 numbers from 0 to 0x1fff with commas between them, and gives those |
| PidList.FilterRepr | tools/dvb_pid_dump.c:348-354 | the snprintf loop produces the text of the printer on values |
| PidList.ParseFromInRange | tools/dvb_pid_dump.c:100-111 | an accepted list has 1 to 32 PIDs of 13 bits |
| PidList.NeverTruncates | tools/dvb_pid_dump.c:344-354 | at most 159 characters, attained by 32 four-digit PIDs, so 160 bytes never truncate and are not too many |
| PidList.StrtolReadsDecimal | tools/dvb_pid_dump.c:102-103 | base-0 strtol reads a printed PID back as itself, no leading zero making it octal |
| PidList.StrtolReads | tools/dvb_pid_dump.c:102 | base-0 strtol behind spaces and a sign reads all digits of a hexadecimal, octal or decimal number, whose value it returns |
| PidList.StrtolFindsNone | tools/dvb_pid_dump.c:102-103 | without a digit there it reads nothing |
| PidList.HexDigits | tools/dvb_pid_dump.c:102 | which characters are digits of base 16, and their values |
| PidList.ParseReadsList | tools/dvb_pid_dump.c:100-111 | the parser loop reads a printed list back entry by entry |
| PidList.PrintParses | tools/dvb_pid_dump.c:92-112 | whatever list was accepted, printing and parsing it again gives the same filter |
| Hotplug.NoLostWakeup | dvb_hotplug/src/dvb_hotplug.c:101-120 | in every interleaving, a consumer in poll with events queued or a stop request pending has a readable pipe or a write still to come, lost writes included |
| Hotplug.BlockedMeansIdle | tools/dvb_devices.c:190-206 | a consumer blocked with no writer left has an empty queue and no stop request |
| Hotplug.StopIsFinal | tools/dvb_devices.c:103-119 | a stop request, whenever it comes, is never cleared and ends the loop at its next head |
| Hotplug.PopsInOrderSinceReset | dvb_hotplug/src/dvb_hotplug.c:220-236 | a pop returns the oldest queued event, enqueued since the latest reset and after everything popped before |
| Hotplug.EarlyEventsArePoppable | dvb_hotplug/src/dvb_hotplug.c:195-216 | events arriving during registration are queued when init succeeds |
| Hotplug.QueueIsBoundedFifo | dvb_hotplug/src/dvb_hotplug.c:101-113 | the queue is the last at most 64 events enqueued, and every event since the reset is popped, queued or dropped |
| Hotplug.WakeKept | tools/dvb_devices.c:190-206 | each step of consumer, enqueuer or signal handler keeps the wake-up promise |
| Hotplug.ProducersDo | dvb_hotplug/src/dvb_hotplug.c:101-120 | an enqueue keeps the newest 64 and owes a write to the pipe it saw, a write fills a pipe that has room, an interrupt sets the stop flag and owes a write |
| Hotplug.LoopDoes | tools/dvb_devices.c:190-206 | the watch loop leaves at a stop request, pops only after the pipe was found empty and goes back to poll only after the queue was |
| Hotplug.CyclesDo | dvb_hotplug/src/dvb_hotplug.c:155-255 | what opening the pipe, the two ends of init and shutdown do to queue, descriptor and flag |
| Hotplug.FifoKept | dvb_hotplug/src/dvb_hotplug.c:155-255 | each step keeps the FIFO relation, across init and shutdown cycles |
| HotplugQueue.HotplugQueue.Enqueue | dvb_hotplug/src/dvb_hotplug.c:102-113 | on the array: drop-oldest at 64, append, and the descriptor to wake |
| HotplugQueue.HotplugQueue.Pop | dvb_hotplug/src/dvb_hotplug.c:220-236 | -EINVAL before init, 0 when empty, otherwise the oldest event, removed |
| HotplugQueue.HotplugQueue.BeginInit | dvb_hotplug/src/dvb_hotplug.c:155-166 | refuses a bad descriptor or a second init unchanged, otherwise empties the queue |
| HotplugQueue.HotplugQueue.BeginShutdown | dvb_hotplug/src/dvb_hotplug.c:238-250 | empties and detaches an initialized queue, leaves any other alone |
| Lifecycle.AcquireRelease | usbq/src/usbq.c:319-345 | acquiring fails without effect, exactly when it must create and cannot, or adds one holder; releasing undoes it |
| Lifecycle.HotplugInitAllOrNothing | dvb_hotplug/src/dvb_hotplug.c:155-218 | hotplug init succeeds exactly when not initialized and nothing it needs fails, adding one holder of each; every failing exit gives back what it had taken |
| Lifecycle.StreamOpenAllOrNothing | usbq/src/usbq.c:499-541 | so with stream open: when it succeeds, and that every failing exit gives back the event thread |
| Lifecycle.AlwaysBalanced | usbq/src/usbq.c:46-72 | over every sequence of calls and failures: the event thread runs exactly while its count, open streams plus one for hotplug, is positive; the context lives exactly while somebody holds it, hotplug's share being one while initialized |
| Lifecycle.ShutdownUndoesInit | dvb_hotplug/src/dvb_hotplug.c:238-255 | hotplug shutdown takes away exactly what init added, and changes nothing without one |
| Lifecycle.HoldersCount | usbq/src/usbq.c:46-72 | engine init and shutdown, and stream close, change the number of their holders by one |
| LifecycleRuntime.Runtime.UsbqInit | usbq/src/usbq.c:46-59 | the init count and context on the globals |
| LifecycleRuntime.Runtime.UsbqShutdown | usbq/src/usbq.c:61-72 | the last holder destroys the context, a spare call changes nothing |
| LifecycleRuntime.Runtime.EvtAcquire | usbq/src/usbq.c:319-333 | the first holder starts the thread or the count goes back to 0 |
| LifecycleRuntime.Runtime.EvtRelease | usbq/src/usbq.c:335-345 | the last holder stops the thread |
| LifecycleRuntime.Runtime.StreamOpen | usbq/src/usbq.c:499-541 | the event-thread side of open on every exit |
| LifecycleRuntime.Runtime.HotplugInit | dvb_hotplug/src/dvb_hotplug.c:155-218 | the counts and the answer after every exit, libusb's own codes passed on; 0 exactly on success |
| LifecycleRuntime.Runtime.HotplugShutdown | dvb_hotplug/src/dvb_hotplug.c:238-255 | gives back exactly what init took |
| I2cBus.Em28xxDecodes | bridges/em28xx/bridge/src/em28xx_i2c.c:117-157 | what the bus sees of a message, which is the message exactly unless it is empty or a read that is not the last |
| I2cBus.Em28xxRequest | bridges/em28xx/bridge/src/em28xx_i2c.c:117-166 | request number, shifted address, length and payload of the control request of each kind of message |
| I2cBus.Dib0700Decodes | bridges/dib0700/bridge/src/dib0700_i2c.c:37-78 | what the bus sees of a message, which is the message exactly when it has fewer than 64 bytes |
| I2cBus.Dib0700Request | bridges/dib0700/bridge/src/dib0700_i2c.c:37-78 | start, stop and length bits and the shifted address, in the value of a read and in the four bytes ahead of a write |
| I2cBus.DvbskyDecodes | bridges/dvbsky/bridge/src/dvbsky_i2c.c:31-80 | what the bus sees of a list, which is the list exactly when it has one address and no empty write before a read |
| I2cBus.DvbskyFrame | bridges/dvbsky/bridge/src/dvbsky_i2c.c:31-72 | the frame of a write, a read and a pair, byte by byte |
| I2cBus.Em28xxSegsAre | bridges/em28xx/bridge/src/em28xx_i2c.c:253-287 | a whole list goes over em28xx as it is exactly when it has no empty message and no read before the last |
| I2cBus.Dib0700SegsAre | bridges/dib0700/bridge/src/dib0700_i2c.c:80-99 | a whole list goes over dib0700 as it is exactly when no message has more than 63 bytes |
| I2cBus.OneMeaning | bridges/dvbsky/bridge/src/dvbsky_i2c.c:82-107 | for every [write], [read] or [write; read] to one 7-bit address with 1 to 60 bytes, the requests of all three bridges decode to the transfers of the messages themselves |
| I2cMasters.Em28xxMaster.WaitStatus | bridges/em28xx/bridge/src/em28xx_i2c.c:85-112 | answers for the polls as `PollRc` says, after as many polls as `Polled` says |
| I2cMasters.PollRcMeans | bridges/em28xx/bridge/src/em28xx_i2c.c:85-112 | the answer is that of the first poll that settles the transfer, or of the last one in time, and no poll follows it |
| I2cMasters.StatusMeans | bridges/em28xx/bridge/src/em28xx_i2c.c:89-111 | which status bytes settle a transfer, and the code of each |
| I2cMasters.Em28xxMaster.SendBytes | bridges/em28xx/bridge/src/em28xx_i2c.c:117-136 | exactly when the bus sees the write and exactly what is answered; a write the bridge has taken is still reported as failed when its status is bad |
| I2cMasters.Em28xxMaster.RecvBytes | bridges/em28xx/bridge/src/em28xx_i2c.c:138-157 | exactly what is answered for any length, USB answer and status: refused outside 1 to 64 bytes, else the code of USB, else that of the status, else the bytes that came, which the slave drove; and exactly when the bus sees the read |
| I2cMasters.Em28xxMaster.CheckForDevice | bridges/em28xx/bridge/src/em28xx_i2c.c:159-166 | 0 exactly when USB brings a byte and the status is good, otherwise the code of the one that failed |
| I2cMasters.Em28xxMaster.OneMessage | bridges/em28xx/bridge/src/em28xx_i2c.c:253-287 | one turn of the loop, for any message: its exact answer, whether the bus sees it, and the requests and polls it takes |
| I2cMasters.EndAtMeans | bridges/em28xx/bridge/src/em28xx_i2c.c:253-289 | a list ends with the first message that fails, whose code it answers, or with their number |
| I2cMasters.Em28xxMaster.Xfer | bridges/em28xx/bridge/src/em28xx_i2c.c:253-289 | any list, empty messages and early reads included: exactly what it answers, how much of the list is on the wire and which buffers are filled, from the answers of USB and of the status register; a sound bus always succeeds |
| I2cMasters.Dib0700Master.OneRead | bridges/dib0700/bridge/src/dib0700_i2c.c:37-55 | the exact answer for any length and USB answer: 0 only with all the bytes the slave drove, and never for 64 bytes or more |
| I2cMasters.Dib0700Master.OneWrite | bridges/dib0700/bridge/src/dib0700_i2c.c:57-78 | any length: refused above 252 bytes, otherwise 0 exactly when the bridge takes the request, of whose bytes the bus sees the length modulo 64 |
| I2cMasters.Dib0700Master.Xfer | bridges/dib0700/bridge/src/dib0700_i2c.c:80-99 | any lengths: exactly what it answers, how much of what the bridge makes of the list is on the wire, and which buffers are filled |
| I2cMasters.DvbskyMaster.BulkRw | bridges/dvbsky/bridge/src/dvbsky_core.c:60-83 | any frame and reply length: the exact answer, when the frame runs, and what the reply brings |
| I2cMasters.DvbskyMaster.Xfer | bridges/dvbsky/bridge/src/dvbsky_i2c.c:82-107 | unsupported lists are refused without touching bus or buffers; the others run whole exactly when the frame is taken, and the exact answer follows from the two USB transfers |
| I2cMasters.DvbskyMaster.Carry | bridges/dvbsky/bridge/src/dvbsky_i2c.c:31-80 | one_write, one_read and write_then_read: frame, reply and buffer |
| I2cMasters.Advance | bridges/em28xx/bridge/src/em28xx_i2c.c:253-287 | one more message of a list on a bus, common to all bridges |
| I2cTransfer.Transfer | linuxdvbkpi/src/i2c.c:91-94 | for any message list, what each bridge makes of it and its exact answer; a transaction that all three support has bus, buffers and count of running the messages directly, or fails after a first part, and succeeds when nothing fails |
| I2cTransfer.SameTransfers | bridges/dvbsky/bridge/src/dvbsky_i2c.c:82-107 | the three bridges show the bus the same transfers |
| I2cTransfer.PairOnEm28xx | bridges/em28xx/bridge/src/em28xx_i2c.c:253-289 | a register read on em28xx answers for the first of its two requests, its two statuses and its byte that fails |
| I2cTransfer.PairOnDib0700 | bridges/dib0700/bridge/src/dib0700_i2c.c:80-99 | on dib0700, for its two requests and its byte |
| I2cTransfer.PairOnDvbsky | bridges/dvbsky/bridge/src/dvbsky_i2c.c:61-80 | on dvbsky, for a frame of five bytes and a reply of two |
| I2cMux.BracketedIffPaired | linuxdvbkpi/src/i2c_mux.c:15-33 | at any nesting depth the select / deselect trace is well-bracketed under every pattern of failures, exactly when each mux has both callbacks or neither |
| I2cMux.PairedBrackets | linuxdvbkpi/src/i2c_mux.c:15-33 | a successful select has exactly one matching deselect, also when the inner transfer fails |
| I2cMux.FirstFailureWins | linuxdvbkpi/src/i2c_mux.c:30-32 | the result is the failure that happened first, so an inner error hides a deselect error |
| I2cMux.TransferWhileSelected | linuxdvbkpi/src/i2c_mux.c:21-29 | when no select fails there is one transfer, and at that moment exactly the muxes of the chain with a select are selected, innermost last; when one fails there is none |
| I2cMux.InThisOrder | linuxdvbkpi/src/i2c_mux.c:15-29 | for any answers and nesting, the trace is all selects up to the first that fails, then the transfer if none has, then the deselects that belong to them |
| I2cMux.ResultIs | linuxdvbkpi/src/i2c_mux.c:18-32 | the result from the answers alone: the first failing select, else a failed transfer, else the first failing deselect, else the transfer's answer |
| I2cMux.Wire.I2cTransfer | linuxdvbkpi/src/i2c_mux.c:15-33 | the recursive transfer produces that result, and all selects, the transfer, all deselects in that order |
| RegisterChip.StoreFetch | linuxdvbkpi/src/regmap.c:95-129 | a block written to consecutive registers reads back |
| RegisterChip.StoreFrame | linuxdvbkpi/src/regmap.c:108-129 | and leaves the other registers alone |
| RegisterChip.ReadBack | linuxdvbkpi/src/regmap.c:69-82 | the [register], [read] pair on a bus brings the registers from there on |
| RegisterChip.ReadBackKeeps | linuxdvbkpi/src/regmap.c:69-82 | no part of such a pair changes a register |
| RegisterChip.WriteThrough | linuxdvbkpi/src/regmap.c:84-93 | [register, data..] on a bus stores the data |
| Regmap.Regmap.Read | linuxdvbkpi/src/regmap.c:69-82 | on any bridge: the register's value on success, no register changed whatever happens, and exactly the answer of the two messages |
| Regmap.Regmap.Write | linuxdvbkpi/src/regmap.c:84-93 | on any bridge: the register is set exactly when the bridge takes the request and 0 is answered exactly when it also confirms it, so a failed write took effect exactly when taken and not confirmed; a failure answers the transfer's code |
| Regmap.FailedWriteTakesEffect | bridges/em28xx/bridge/src/em28xx_i2c.c:124-134 | a concrete em28xx write that is reported as failed and has set the register |
| Regmap.Regmap.BulkRead | linuxdvbkpi/src/regmap.c:95-106 | on any bridge: consecutive registers on success, the count cut to 16 bits, and no register changed whatever happens |
| Regmap.Regmap.BulkWrite | linuxdvbkpi/src/regmap.c:108-129 | on any bridge: more than 64 bytes are refused; otherwise consecutive registers are set exactly when the request is taken, except that dib0700 sets none for 63 and 64 bytes, which it reports as done |
| Regmap.Regmap.UpdateBits | linuxdvbkpi/src/regmap.c:131-139 | on any bridge: no write and 0 when the word would not change; otherwise the register becomes (old & ~mask) \| (val & mask) of the bytes exactly when the bridge takes the write that follows the read, and 0 is answered exactly when it also confirms it |
| Regmap.Regmap.WriteUpdated | linuxdvbkpi/src/regmap.c:136-138 | the compare and the write, the register having been read |
| Regmap.NewWord | linuxdvbkpi/src/regmap.c:136-137 | whether the 32-bit word changes, and that its low byte is the blend |
| Bits.MergedByte | linuxdvbkpi/src/regmap.c:136-138 | the low byte of the 32-bit C expression is the bit-by-bit blend of the bytes |
| Bits.WordFits | linuxdvbkpi/src/regmap.c:133-136 | the word read from a register has no bits beyond its byte |
| Bits.MergeIsBlend | linuxdvbkpi/src/regmap.c:136 | the bitwise expression takes each bit from val where the mask has a one and from the old word elsewhere |
| Em28xxShadow.MessagesUseTheirBus | bridges/em28xx/bridge/src/em28xx_i2c.c:242-251 | over any run with any accesses failing, every message goes out with the bus bit of register 0x06 equal to the bus asked for, and the speed bits survive bus switches |
| Em28xxShadow.SwitchBusSelects | bridges/em28xx/bridge/src/em28xx_i2c.c:242-251 | a bus switch selects the bus and keeps the speed, or changes nothing |
| Em28xxShadow.StepKeepsClk | bridges/em28xx/bridge/src/em28xx_i2c.c:170-186 | each call keeps cached bus and speed in agreement with register 0x06 |
| Em28xxShadow.SetSpeedIs | bridges/em28xx/bridge/src/em28xx_i2c.c:170-186 | register, cached speed without the bus bit and cached bus after a set_speed that works; nothing changes otherwise |
| Em28xxShadow.XferIs | bridges/em28xx/bridge/src/em28xx_i2c.c:242-251 | when the bus can be selected all messages go out on it with the speed as it was, otherwise none |
| Em28xxShadow.FlagIs | bridges/em28xx/dvb/src/dvb_em28xx.c:115-195 | exactly when a capture flag is set and cleared by tune, capture_stop and teardown |
| Em28xxShadow.BitsAre | bridges/em28xx/bridge/src/em28xx_ts.c:64-114 | exactly when those calls switch the three bits of their stream, and to what |
| Em28xxShadow.StepTsAgreesIff | bridges/em28xx/dvb/src/dvb_em28xx.c:306-311 | a call keeps capture bits and flags equal, except exactly a teardown of a running capture that does not get through |
| Em28xxShadow.CaptureBitsAreTheFlags | bridges/em28xx/dvb/src/dvb_em28xx.c:123-195 | over a run, the capture bits of register 0x5f are the two flags after every call if and only if no teardown finds a running capture and fails to stop it |
| Em28xxShadow.NeverLosesTsMeans | bridges/em28xx/dvb/src/dvb_em28xx.c:306-311 | that condition call by call |
| Em28xxShadow.TeardownCanLoseTs | bridges/em28xx/dvb/src/dvb_em28xx.c:306-311 | tune, then a teardown whose write fails: the bit stays set behind a cleared flag |
| Em28xxShadow.OtherFrontendUndisturbed | bridges/em28xx/bridge/src/em28xx_ts.c:101-113 | calls on one frontend leave the other's bits and flag alone |
| Em28xxDevice.Em28xxDevice.WriteRegBits | bridges/em28xx/bridge/src/em28xx_core.c:96-104 | the masked bits change, the others do not; nothing on an error |
| Em28xxDevice.Em28xxDevice.SetSpeed | bridges/em28xx/bridge/src/em28xx_i2c.c:170-186 | register, speed and cached bus change together or not at all |
| Em28xxDevice.Em28xxDevice.I2cXfer | bridges/em28xx/bridge/src/em28xx_i2c.c:230-290 | the bus side of a transfer: switch when needed, then the messages up to the first that fails, whose code is answered |
| Em28xxDevice.Em28xxDevice.CaptureStart | bridges/em28xx/bridge/src/em28xx_ts.c:64-114 | -ENOTSUP exactly on other chips; 0 exactly when all register accesses went through, and then this TS's bits are as asked and its packet-size register is 0xff; no other register changes |
| Em28xxDevice.Em28xxDevice.Tune | bridges/em28xx/dvb/src/dvb_em28xx.c:115-131 | capture is started once, and only after set_frontend succeeded |
| Em28xxDevice.Em28xxDevice.CaptureStop | bridges/em28xx/dvb/src/dvb_em28xx.c:180-195 | the flag is cleared only when the register was |
| Em28xxDevice.Em28xxDevice.Teardown | bridges/em28xx/dvb/src/dvb_em28xx.c:306-311 | the flag is cleared whether or not the register was |
| Firmware.AcceptedIffRecords | bridges/dib0700/bridge/src/dib0700_fw.c:85-127 | a blob passes the bounds checks exactly when it is a concatenation of records, in only one way |
| Firmware.PacketsRestore | bridges/dib0700/bridge/src/dib0700_fw.c:104-109 | the packets, bytes 1 and 2 of each swapped back, concatenate to the blob |
| Firmware.PacketFits | bridges/dib0700/bridge/src/dib0700_fw.c:86-109 | each packet fits 260 bytes, exactly filled at length 255 |
| Firmware.WalkCorrect | bridges/dib0700/bridge/src/dib0700_fw.c:85-129 | the walk writes the records' packets in order up to the first not fully written, then the jump, exactly when the blob is well-formed and every one was |
| Firmware.WritesWentThrough | bridges/dib0700/bridge/src/dib0700_fw.c:115-126 | every write before the last went through in full |
| Firmware.OutcomeMeans | bridges/dib0700/bridge/src/dib0700_fw.c:85-138 | what each way of ending means: booted, failed jump, failed and short write, format error |
| Firmware.PrefixIsLongest | bridges/dib0700/bridge/src/dib0700_fw.c:86-99 | the records walked are the blob up to its end or to the first place where no record is |
| Firmware.EntryJump | bridges/dib0700/bridge/src/dib0700_fw.c:46-51 | the eight bytes of the jump to 0x70000000 |
| Firmware.Repack | bridges/dib0700/bridge/src/dib0700_fw.c:104-109 | the buffer holds the packet of the record: length, the two address bytes exchanged, the rest as in the blob |
| Firmware.Download | bridges/dib0700/bridge/src/dib0700_fw.c:85-138 | the download loop does what the walk promises |
| Firmware.JumpRam | bridges/dib0700/bridge/src/dib0700_fw.c:46-56 | one 8-byte command is written after the packets: the jump request with the address in big-endian order; success exactly when all of it was written, else a negative code |
| Firmware.BootedMeansWholeBlob | bridges/dib0700/bridge/src/dib0700_fw.c:85-129 | if the jump was sent it is the last write, and what the bridge received before it restores to the whole blob |
| Firmware.JumpIsLastWriteIff | bridges/dib0700/bridge/src/dib0700_fw.c:118-129 | the jump command is the last thing written exactly when the walk jumped; nothing before it equals it |
| Firmware.NoPacketIsAJump | bridges/dib0700/bridge/src/dib0700_fw.c:104-109 | no record's packet can be taken for the jump command |
| DvbskyStream.StartFollowsStop | bridges/dvbsky/bridge/src/dvbsky_stream.c:32-59 | whatever threads share the bridge, every START frame directly follows a STOP |
| DvbskyStream.HolderSends | bridges/dvbsky/bridge/src/dvbsky_stream.c:37-55 | which frame each part of the function sends while it holds the lock, a START exactly behind a STOP that was written |
| DvbskyStream.EnablesAreTunesPlusEdges | bridges/dvbsky/dvb/src/dvb_dvbsky.c:79-203 | over any run, the flags mean what the calls say and stream-enable attempts are successful tunes plus lock edges seen while streaming |
| DvbskyStream.LockedMeansResynced | bridges/dvbsky/dvb/src/dvb_dvbsky.c:169-178 | a frontend that streams and counts as locked was resynchronised at that edge, with no tune and no unlock since |
| DvbskyFrontend.DvbskyFrontend.StreamCtrl | bridges/dvbsky/bridge/src/dvbsky_stream.c:32-59 | which frames go out and what is answered, for full, short and failed writes |
| DvbskyFrontend.DvbskyFrontend.Tune | bridges/dvbsky/dvb/src/dvb_dvbsky.c:79-130 | flags, attempts and answer on every exit, and the ring flushed before the stream is enabled again |
| DvbskyFrontend.DvbskyFrontend.GetStatus | bridges/dvbsky/dvb/src/dvb_dvbsky.c:140-180 | an unlocked-to-locked edge with capture on sends a STOP and, that written, a START; nothing else does; a failed resync is not reported |
| DvbskyFrontend.DvbskyFrontend.CaptureStop | bridges/dvbsky/dvb/src/dvb_dvbsky.c:187-203 | one STOP if capture is on; the flags are cleared only when it went out |

## Left out

- UsbqStream.UsbqStream.TransferCallback: has nothing between its critical sections, as have the callbacks in `DeliverAll`; the interleaved form is `CallbackRace`.
- UsbqStream.UsbqStream.Close: starts with no callback under way; `CallbackRace` has the rest.
- UsbqStream.UsbqStream.ReadTimed: the owner does not move on during the wait, and a wait is a number of wake-ups; clocks and deadlines are not modelled anywhere.
- PidList.StrtolReadsDecimal: saturation at LONG_MAX is not modelled; such values are refused as PIDs either way.
- I2cMasters.Dib0700Master.Xfer: I2C_M_NOSTART is not part of the messages of this model.
- I2cMasters.Em28xxMaster.Xfer: its bus is already selected; the switch is `Em28xxDevice.Em28xxDevice.I2cXfer`.
- Ring capacities of 0 and above INT_MAX, and the 64-bit width of the counters.
- Independence of the read sizes after a lost lock: the tool discards the whole stage there, so the result does depend on them.
- libusb itself, USB descriptors, enumeration, device opening and the exact balance of `usbq_init` against it (`usbq_open` and `usbq_enumerate` raise the count with no matching drop).
- Concurrent init and shutdown of the hotplug module, concurrent acquire and release of the event thread, and the lookup of VID:PID pairs in the board tables.
- NULL arguments and failing allocations, except where an exit must give something back.
- Engine bring-up, its failure paths and its GPIO sequences.
- The chip drivers (demodulators and tuners): slaves are arbitrary functions of the bus history, or a 256-register chip; `set_frontend`, `read_status`, `select` and `deselect` are answers given from outside, without bus transfers of their own.
- Logging, command-line usage, the `intlog10` tables and the kernel-header macros.

# Verified models of the profi++ / p-net process-data core

This project models, in Dafny, the parts of the PROFINET device stack that carry cyclic
data and coordinate its threads, and proves what they promise over whole runs.

- **The cyclic consumer (CPM)**: `Cpm.dfy` has the state of one instance, the effect of each
  entry point on it, and the class `CpmInstance` that does the same field by field.
  `CpmRuns.dfy`, `CpmAccounting.dfy`, `CpmWatchdog.dfy` and `CpmCycle.dfy` prove properties of
  arbitrary runs of activations, frames, timer ticks, reads and closes; `CpmFrames.dfy` puts
  frames together from their parts and says the same of what was sent. `CpmLookup.dfy` is the
  descriptor search. `CpmExchange.dfy` takes the two-slot buffer exchange apart into the single
  locked and unlocked steps of the receive thread and its readers.
- **Synchronisation objects and their users**: `Mailbox.dfy` (the ring buffer),
  `MailboxThreads.dfy`, `MailboxSingleWake.dfy`, `Semaphore.dfy`, `EventFlags.dfy`,
  `BackgroundWorker.dfy` and `SynchronizationEvents.dfy`. Threads are transition systems: a locked section is one step,
  and sleeping, spurious wake-ups, time-outs and the notification after unlocking are steps of
  their own, interleaved in any order. A step that is not enabled changes nothing, so the
  theorems range over all sequences of actions.
- **The profi++ data path**: `Codec.dfy` (big-endian codecs), `Submodule.dfy` and
  `SubmoduleRoundTrip.dfy` (slicing one buffer over many items), `PlugMirror.dfy` (the plug
  callbacks and the instance map).
- **Two algorithms of the bundled logger**: `Logging.dfy` (glob matching, every-n-th counter).

## What the proofs found

Where the code does less than its documentation or its purpose suggests, the model follows the
code and the exact condition is proved.

- `pf_types.h` documents cycle value -1 as "never", but the check treats it as 65535: a first
  frame with a counter of 61440 or more is refused (`CpmCycle.FirstFrame`).
- The flag "new data since last call" belongs to the CPM, not to the caller. It is wrong for an
  item exactly if the item has not seen the newest data and someone else has read since
  (`CpmRuns.OneFlagForAllReaders`).
- Neither expiry, nor close, nor activation empties the buffer slots. A read right after
  re-activation finds data exactly if a frame was ever accepted, and reads them from where a
  frame without a VLAN tag would have them (`CpmRuns.ReactivationKeepsOldData`). After a close
  it reads a freed buffer (`CpmRuns.ReadsAfterClose`), and a second close frees the same buffers
  again (`CpmAccounting.SecondCloseFreesAgain`).
  The stack itself zeroes an application relation before it activates its CPMs
  (`pf_cmrpc.c:678`) and closes them once (`pf_cmsu.c:132-163`), so these are facts about the
  entry points alone. So is the next one.
- Creating a CPM again upsets the count of start and stop indications exactly if it was not idle
  (`CpmAccounting.RunAccounting`).
- The application relation of a submodule is looked up under 16 bits of the API, its descriptor
  under all 32 (`CpmLookup.OwnApiExactly`).
- The branch that restarts the watchdog without new data (`pf_cpm_driver_sw.c:352-356`) cannot
  be taken, since every data status is primary or backup (`CpmModel.CpmInstance.CheckFrame`).
- The buffer exchange is safe for one reader and for no more (`CpmExchange.OneReaderExactly`).
  Even for one, the position of the data is stored outside the lock and after the frame can be
  fetched: reads are always right exactly if every frame has its data where activation supposes
  them, which VLAN tags spoil (`CpmExchange.MisreadExactly`).
- The Linux mailbox wakes one thread per call through one condition variable for posters and
  fetchers. Callers can get stuck for good exactly if there are callers on both sides and more
  than one thread more than the mailbox has places (`MailboxSingleWake.SingleWakeExactly`).
- The Linux event flags wake one waiting thread. That is enough for one waiting thread and for
  no more (`EventFlags.OneWaiterExactly`); the background worker is one.
- The deadline of a Linux semaphore wait is malformed when the nanoseconds add up to exactly
  one second, and only then (`Semaphore.SemDeadline`, `SemDeadlineDefect`).
- The profi++ loop handles one event per pass and waits again although received events are
  unhandled (`SynchronizationEvents.RoundLeavesBehind`). A handler can also run again without a
  signal since its last run started, exactly if that run served an event that was signalled
  again and there was no signal afterwards (`SynchronizationEvents.UnpromptedExactly`,
  `CycleRunsTwice`).
- Reading a short field into a wider variable multiplies the number (`Codec.ShortRead`). A string
  arrives unchanged exactly if it is as long as its item (`Submodule.DecodeEncode`), and what is
  copied is the string and its terminator exactly if the item is at most one byte longer
  (`Submodule.StaysInString`); otherwise memory behind the string goes on the wire.
- The instance map ignores the API. It mirrors the stack exactly until an indication pulls a
  module from a slot where another API has submodules, or plugs a submodule where another API
  has one (`PlugMirror.PlugMirrorKept`); that is impossible exactly if no slot is used by two
  APIs (`PlugMirror.MirrorNeedsOneApiPerSlot`). An instance initialised twice by two APIs has its
  items twice but counts their bytes once, so setting its input fails unless the items are empty
  (`Submodule.InitialiseTwice`). The stack indicates a module only for an API whose slot is still
  empty (`pf_cmdev.c:3925-3941`), so it does not issue the last indication of
  `PlugMirror.ModuleIndicationDropsOther`.
- A module plug that the stack accepts is reported as failed exactly if an instance is in the
  slot that its API did not have plugged (`PlugMirror.RefusedThoughPlugged`): one left behind by
  a refused submodule plug (`RefusalSpoilsModule`), or one of another API, even while all
  instances mirror the stack (`SecondApiIsRefused`).
- The every-n-th counter works exactly for n up to 100000 (`Logging.EveryNthExactly`).

## Model

| member | source | states |
|---|---|---|
| CpmModel.CpmInstance.Activate | pnet/src/common/pf_cpm.c:212-308 | Activation takes effect only in W_START, refuses otherwise with an error, and enters FRUN exactly if the timer was scheduled; the new state is the one the run theorems are about. |
| CpmModel.CpmInstance.Close | pnet/src/common/pf_cpm_driver_sw.c:149-174 | Close stops the timer, frees both slots and leaves the slot pointers as they are. |
| CpmModel.CpmInstance.ControlIntervalExpired | pnet/src/common/pf_cpm_driver_sw.c:46-116 | A tick counts up in RUN, expires the connection once the hold factor is reached, and re-arms the timer otherwise. |
| CpmModel.CpmInstance.PutBuf | pnet/src/common/pf_cpm_driver_sw.c:184-194 | The new buffer goes in marked fresh and the previous one comes out. |
| CpmModel.CpmInstance.GetBuf | pnet/src/common/pf_cpm_driver_sw.c:205-237 | The reader gets the newest buffer and whether it was fresh; a fresh buffer changes sides. |
| CpmModel.CpmInstance.CheckFrame | pnet/src/common/pf_cpm_driver_sw.c:295-329 | The trailer is decoded big-endian; data are updated exactly for frames of right source, length, transfer status and counter with valid data; for valid data, restarting the watchdog and updating data are the same. |
| CpmModel.CpmInstance.CDataInd | pnet/src/common/pf_cpm_driver_sw.c:257-400 | A frame is accepted, ignored or refused as its state and checks say, and one buffer is freed in each case unless the slot was empty. |
| CpmModel.CpmInstance.GetDataAndIops | pnet/src/common/pf_cpm.c:393-494 | Reading data: refused in W_START, too small, nothing yet, or the item's bytes of the newest buffer, each at its offset behind the buffer position, with the freshness flag. Only the bytes that are copied need be inside the buffer. |
| CpmModel.CpmInstance.GetIocs | pnet/src/common/pf_cpm.c:496-579 | Reading the consumer status, each byte at its offset, which also takes the freshness flag. Only the bytes that are copied need be inside the buffer. |
| CpmRuns.ActivationStarts | pnet/src/common/pf_cpm.c:233-275 | Activating an idle, empty instance starts the state all activation theorems begin with; the expected length is 20 bytes plus the C_SDU for the allowed lengths. |
| CpmRuns.ActivationTracks | pnet/src/common/pf_cpm_driver_sw.c:184-400 | Over all runs of frames, ticks and reads: the newest buffer is the last accepted frame, the flag says whether it was collected, and in RUN the watchdog counter equals the ticks since that frame and is at most the hold factor. |
| CpmRuns.BoundedStaleness | pnet/src/common/pf_cpm.c:393-579 | After any such run a read is refused exactly if the watchdog has expired, and otherwise each byte returned is the one at the item's offset behind the frame id of the newest accepted frame, inside its C_SDU, and that frame is at most the hold factor in ticks old. |
| CpmRuns.LatestIsCSdu | pnet/src/common/pf_cpm_driver_sw.c:228-236 | Reading from the buffer position on yields C_SDU bytes, never the four-byte trailer, with or without a VLAN tag. |
| CpmRuns.ExpiryIsOverdue | pnet/src/common/pf_cpm_driver_sw.c:57-83 | An active instance is back in W_START exactly if at some moment more ticks than the hold factor had passed since an accepted frame. |
| CpmRuns.ExpiresOnTheTick | pnet/src/common/pf_cpm_driver_sw.c:64-83 | Expiry happens on a tick, exactly the one after hold-factor ticks without a frame, with one stop indication and the expiry error. |
| CpmRuns.OneFlagForAllReaders | pnet/src/common/pf_cpm.h:105-106 | After any run of an activation a read never reports old data as new, and reports new data as old exactly if the item has not seen them and another read came in between. |
| CpmRuns.OtherReadTakesFlag | pnet/src/common/pf_cpm_driver_sw.c:213-226 | A witness: after any read of something else, a read of the item returns the same data, no longer marked new. |
| CpmRuns.ReactivationKeepsOldData | pnet/src/common/pf_cpm.c:233-275 | Over any history, closes and activations included: once back in W_START, the first read after activating again finds no data exactly if no frame was ever accepted, and otherwise returns the item's bytes of the newest one, counted from position 16. |
| CpmRuns.ReadsAfterClose | pnet/src/common/pf_cpm_driver_sw.c:149-174 | After close and re-activation a read works on a freed buffer exactly if a frame was ever accepted. |
| CpmAccounting.BufferConservation | pnet/src/common/pf_cpm_driver_sw.c:184-226 | Received minus freed is exactly what the slots hold; with distinct receive buffers the slots never alias, never hold a freed buffer, and nothing is freed twice. |
| CpmAccounting.CloseFreesEverything | pnet/src/common/pf_cpm_driver_sw.c:164-171 | After close every received buffer has been freed exactly as often as it came. |
| CpmAccounting.SecondCloseFreesAgain | pnet/src/common/pf_cpm_driver_sw.c:164-171 | A second close frees nothing more exactly if both slots were empty. |
| CpmAccounting.RunAccounting | pnet/src/common/pf_cpm.c:117-294 | Over all runs, starts minus stops minus closes taken in RUN is always one in RUN and zero otherwise, the interval runs exactly in FRUN and RUN and at most one timer is pending, exactly if the instance is created again only when idle; then there is exactly one timer while running if the scheduler never refused. |
| CpmAccounting.StatusIsReported | pnet/src/common/pf_cpm_driver_sw.c:361-374 | Within any activation, whatever was indicated before, the status indications given since link up without gaps from 0 to the data status of the newest accepted frame and report only changes. |
| CpmAccounting.NewDataIsReported | pnet/src/common/pf_cpm_driver_sw.c:343-350 | Within an activation, new data are announced exactly once for each accepted frame. |
| CpmWatchdog.AgeIsTicksSince | pnet/src/common/pf_cpm_driver_sw.c:57-108 | While active the timer is always pending, so the age of the newest frame is the number of all ticks since it. |
| CpmWatchdog.SilenceBeforeExpiry | pnet/src/common/pf_cpm_driver_sw.c:57-108 | With ideal ticks the silence before expiry is more than H and at most H + 1 control intervals. |
| CpmWatchdog.ControlIntervalExact | pnet/src/common/pf_cpm.c:236-239 | The interval is the floor of 31.25 us times both factors for all allowed factors, and the 32 bit product is exact iff it does not exceed 32 bits. |
| CpmCycle.CheckCycleMeansNewer | pnet/src/common/pf_cpm.c:181-193 | For counters within -4095..61440 of the last accepted one the check on the wire values decides strictly newer. |
| CpmCycle.AcceptedAreRecords | pnet/src/common/pf_cpm_driver_sw.c:319-361 | Over whole runs the accepted unwrapped counters are exactly the running records of those in valid frames that reached the active instance, strictly increasing, and the newest is their maximum. |
| CpmCycle.FirstFrame | pnet/src/common/pf_cpm.c:246 | Right after activation a valid frame is accepted exactly if its counter is at most 61439. |
| CpmCycle.Resynchronises | pnet/src/common/pf_cpm.c:181-193 | From any stored counter, with ticks and reads in between, a provider advancing by a fixed step has an exact number of leading frames refused, at most 4095/step + 1, and every later frame accepted until the connection expires. |
| CpmFrames.SentFrameTaken | pnet/src/common/pf_cpm_driver_sw.c:295-375 | A frame put together from addresses, tag, frame id, C_SDU, counter and status bytes is taken by an active instance exactly if its source and length are as configured, there is no transfer error, bit 2 of the status is set and its counter is newer; then slot, counter, status and indications are what the frame says, and otherwise it is only freed. |
| CpmFrames.AnnouncedAreRecords | pnet/src/common/pf_cpm_driver_sw.c:295-375 | Over whole runs of such frames, ticks and reads, the counters of the frames the application is told of are exactly the running records of the good frames that reach the active instance, strictly increasing. |
| CpmFrames.SentResynchronises | pnet/src/common/pf_cpm.c:181-193 | Of a provider's good frames with counters a fixed step apart, exactly the stated number of leading ones is not announced. |
| CpmFrames.FirstSentFrame | pnet/src/common/pf_cpm.c:246 | Right after activation a good frame is taken exactly if its wrapped counter is at most 61439. |
| CpmFrames.DataBehindFrameId | pnet/src/common/pf_cpm_driver_sw.c:343-350 | Byte k of the C_SDU sent is found k bytes behind the frame id. |
| CpmLookup.FindDescriptor | pnet/src/common/pf_cpm.c:324-391 | The descriptor found is the first match on a consumer connection of the application relation that owns the subslot; there is none exactly if nothing is found. |
| CpmLookup.FindOwner | pnet/src/device/pf_cmdev.c:150-283 | The search through APIs, slots and subslots takes the first match on each level and returns the owner of that subslot, if any. |
| CpmLookup.OwnApiExactly | pnet/src/common/pf_cpm.c:341-346 | The owner found is that of the submodule's own API, on every device, exactly if the API fits 16 bits. |
| CpmExchange.ExchangeIsARegister | pnet/src/common/pf_cpm_driver_sw.c:184-237 | For every interleaving of the receive thread with one reader, and wherever the frames have their data, a read returns the frame and the freshness that a one-place register had at the swap; the reader's buffer stays allocated and is never the one being freed; the allocated buffers are those in the slots and on the way out. |
| CpmExchange.MisreadExactly | pnet/src/common/pf_cpm_driver_sw.c:228-236 | A reader alone can come to read the frame from a wrong position exactly if some frame has its data elsewhere than activation left the buffer position. |
| CpmExchange.ConstantPosition | pnet/src/common/pf_cpm_driver_sw.c:343-350 | If all frames have their data there, reads return exactly what the register held, position included. |
| CpmExchange.OneReaderExactly | pnet/src/common/pf_cpm_driver_sw.c:228-236 | For a set of reading threads, copying from a freed buffer can be reached exactly if there is more than one. |
| Mailbox.Mbox.Fetch | osal/src/linux/osal.c:386-396 | A fetch that did not time out returns and removes the oldest message; a timed-out one changes nothing. |
| Mailbox.Mbox.Post | osal/src/linux/osal.c:434-444 | A post that did not time out appends its message behind the others, across the wrap of the ring; a timed-out one changes nothing. |
| MailboxThreads.MessagesInOrder | osal/src/windows/osal.c:215-271 | For any threads and any interleaving, posted messages are the fetched ones followed by those in the mailbox, and the size is never exceeded. |
| MailboxThreads.TransferIsAsCalled | osal/src/linux/osal.c:351-445 | A thread that has the lock appends the message it called to post, or takes the oldest one, and otherwise goes to sleep with nothing else changed. |
| MailboxThreads.CallsEndNotifying | osal/src/linux/osal.c:393-396 | Every call, timed out or not, ends with a notification. |
| MailboxThreads.WakeAllLosesNothing | osal/src/windows/osal.c:215-271 | With wake-all and any number of threads: if a thread sleeps although it could go on, some thread is still about to notify. |
| MailboxThreads.RestMeansBlocked | osal/src/windows/osal.c:215-271 | When every thread left is asleep, all of them wait rightly, and not on both sides at once. |
| MailboxThreads.WakeOneServesAPair | osal/src/linux/osal.c:351-445 | With single wake-ups the same holds for one poster and one fetcher. |
| MailboxSingleWake.SingleWakeExactly | osal/src/linux/osal.c:351-445 | With single wake-ups a state in which everyone inside sleeps and someone sleeps wrongly can be reached exactly if the mailbox has places, both sides have callers, and there are more callers than places plus one; time-outs and spurious wake-ups make no difference. |
| MailboxSingleWake.FewThreadsAreSafe | osal/src/linux/osal.c:351-445 | With at most one thread more than places, each unit a sleeper could have has a thread on the way to it, and posters and fetchers never sleep at the same time. |
| MailboxSingleWake.ManyThreadsGetStuck | osal/src/linux/osal.c:393-396 | For any size and any larger set of callers there is such a run, without time-outs or spurious wake-ups. |
| Semaphore.CountAndCover | osal/src/linux/osal.c:160-207 | The count is initial plus signals minus successful waits; while anyone sleeps it is at most the notifications under way plus the woken threads; for any threads, time-outs and spurious wake-ups. |
| Semaphore.CallsAddUp | osal/src/linux/osal.c:160-207 | Every wait called has succeeded once, timed out once or is under way, and every signal called counts once. |
| Semaphore.SleepersWaitRightly | osal/src/linux/osal.c:160-207 | With nobody on the way, threads sleep only on a zero count. |
| Semaphore.SemDeadline | osal/src/linux/osal.c:160-173 | The computed deadline is now plus the time to the nanosecond, and well formed exactly if the nanoseconds do not add up to one second sharp. |
| Semaphore.SemDeadlineDefect | osal/src/linux/osal.c:166-173 | The semaphore's deadline agrees with the one events and mailboxes compute exactly except in that one case. |
| Semaphore.SemDeadlineExample | osal/src/linux/osal.c:166-173 | A witness: waiting one second from a full second on has a malformed deadline. |
| Semaphore.DeadlineExact | osal/src/linux/osal.c:266-273 | The deadline of event and mailbox waits is always well formed and exact. |
| EventFlags.OneWaiterExactly | osal/src/linux/osal.c:260-315 | Waiting threads can be left asleep on a set bit for good exactly if more than one thread waits, whoever sets and clears bits. |
| EventFlags.LoneWaiter | osal/src/linux/osal.c:260-315 | A single waiting thread that sleeps on a set bit is about to be notified, over all interleavings. |
| EventFlags.AnswersAreExact | osal/src/linux/osal.c:260-315 | Told from the history of calls: over all interleavings the flags are exactly the bits last set and not cleared since, and every wait, timed out or not, returns exactly those of its bits that are set at the moment it looks. |
| BackgroundWorker.NoLostJob | pnet/src/common/pf_bg_worker.c:53-131 | A job requested since its last run started, by its number in the enumeration, has its bit set or is about to be started; runs never outnumber the requests made; the worker never sleeps on a set bit without a notification on its way. |
| BackgroundWorker.RequestSetsBit | pnet/src/common/pf_bg_worker.c:53-84 | A request sets the bit of the job with its number and succeeds; a number above 3 fails and changes nothing. |
| BackgroundWorker.RequestIsKept | pnet/src/common/pf_bg_worker.c:53-131 | Whatever comes after a request, the job with its number has its bit set, is about to run, or has run since. |
| BackgroundWorker.FullRound | pnet/src/common/pf_bg_worker.c:99-131 | With all bits set and no interference the jobs start in the order ASE, I&M, port data, port status. |
| BackgroundWorker.RestMeansServed | pnet/src/common/pf_bg_worker.c:99-131 | With the worker asleep and no notification under way, every request has been served. |
| BackgroundWorker.SeenJobsRun | pnet/src/common/pf_bg_worker.c:101-130 | A job in the worker's snapshot is started within a bounded number of the worker's own steps, whatever requesters do. |
| BackgroundWorker.SetBitsRun | pnet/src/common/pf_bg_worker.c:89-131 | A job whose bit is set while the worker is awake starts within 18 of the worker's steps, whatever requesters do, and within eight if it is to come in the present round. |
| BackgroundWorker.RequestsAreServed | pnet/src/common/pf_bg_worker.c:53-131 | Over all interleavings, a request not yet served is served within 18 steps of an awake worker, or a notification for the sleeping worker is on its way. |
| SynchronizationEvents.EventQueue.Signal | profipp/src/ProfinetInternal.h:87-127 | On the shared object, signalling is the signalling step of the transition system. |
| SynchronizationEvents.EventQueue.ReceiveEvents | profipp/src/ProfinetInternal.h:76-83 | Receiving is the receiving step: all signalled bits move over and none is lost. |
| SynchronizationEvents.EventQueue.Pass | profipp/src/ProfinetInternal.cpp:494-533 | The tests of the loop are the passing step: ready-for-data before alarm before cycle before abort, and only one of them. |
| SynchronizationEvents.EventDelivery | profipp/src/ProfinetInternal.h:76-171 | Over all interleavings: a signalled event stays pending until its handler starts, handler runs never outnumber signals, and a worker sleeping on a signal is about to be notified. |
| SynchronizationEvents.CountsAreTrue | profipp/src/ProfinetInternal.h:87-127 | What the system counts as signalled, and as not served since, is what the signallers did. |
| SynchronizationEvents.PassTakesFirst | profipp/src/ProfinetInternal.cpp:494-533 | Over all interleavings, a pass starts the handler of an event exactly if it is received and none before it in the order ready-for-data, alarm, cycle, abort is; otherwise it stays as it is. |
| SynchronizationEvents.UnpromptedExactly | profipp/src/ProfinetInternal.cpp:493-533 | Over all interleavings, a handler starts without a signal since its last run started exactly if its last run served an event that had been signalled again, and no signal came since. |
| SynchronizationEvents.RunsAreOwed | profipp/src/ProfinetInternal.cpp:493-533 | For each event, unprompted handler runs never outnumber the runs that served two signals. |
| SynchronizationEvents.CycleRunsTwice | profipp/src/ProfinetInternal.cpp:493-533 | A run in which the cycle handler is about to start a second time with no signal since its first start. |
| SynchronizationEvents.RoundLeavesBehind | profipp/src/ProfinetInternal.cpp:491-534 | A round without new signals ends asleep with all pending events but one left over, stated by name for each of them, so all are handled exactly if one was pending. |
| SynchronizationEvents.AbortLeftBehind | profipp/src/ProfinetInternal.cpp:491-534 | An abort signalled together with a cycle can stay unhandled with nobody about to wake the worker. |
| Codec.WireRoundTrip | profipp/include/standardconversions.h:100-211 | Numbers that fit survive encoding and decoding, and every wire image stands for exactly one number. |
| Codec.WireByte | profipp/include/standardconversions.h:161-192 | Byte k on the wire is the digit of the number with the weight of the bytes behind it: the most significant comes first. |
| Codec.SignedRoundTrip | profipp/include/standardconversions.h:309-400 | Signed numbers survive in two's complement. |
| Codec.ToProfinet | profipp/include/standardconversions.h:161-192 | The writing loops put the reversed memory behind leading zeros, touch nothing else, and fail without effect exactly if the buffer is too short. |
| Codec.FromProfinet | profipp/include/standardconversions.h:100-128 | The reading loop puts the reversed field at the high end of the variable, and a failure leaves the variable alone. |
| Codec.PaddedWire | profipp/include/standardconversions.h:182-190 | Writing a longer field than the variable keeps the number. |
| Codec.ShortRead | profipp/include/standardconversions.h:116-126 | Reading a field shorter than the variable multiplies the number by 256 per missing byte; it is right exactly for equal sizes or zero. |
| Codec.ShiftEncode32IsGeneric | profipp/include/standardconversions.h:246-263 | The shift-based 32 bit writers equal the generic loop for unsigned and signed values. |
| Codec.ShiftEncode16IsGeneric | profipp/include/standardconversions.h:291-306 | So do the 16 bit ones. |
| Codec.ShiftDecodeIsGeneric | profipp/include/standardconversions.h:217-290 | The shift-based readers equal the generic loop. |
| Codec.OrOfShiftedBytes | profipp/include/standardconversions.h:227-230 | The bitwise or of the shifted bytes is their weighted sum. |
| Submodule.SubmoduleInstance.Initialize | profipp/src/SubmoduleInstance.cpp:9-49 | Succeeds exactly if no parameter index is there already or comes twice. The items are appended to those there are, the lengths are those of the new ones alone, and so right exactly if the earlier ones had no bytes. |
| Submodule.SubmoduleInstance.SetInput | profipp/src/SubmoduleInstance.cpp:107-125 | Inputs get their slices in order until one refuses; the all-updated callback comes once, exactly if all accepted; the remaining length never underflows. |
| Submodule.FeedAccepts | profipp/src/InputInstance.cpp:45-50 | All inputs accept exactly if there are bytes for all of them and each of the application's own callbacks accepts all bytes from its slice on; an input without a callback never refuses. |
| Submodule.FeedGives | profipp/src/SubmoduleInstance.cpp:107-125 | Then each callback has been given, in order, the value in its slice, or all bytes from its slice on. |
| Submodule.SubmoduleInstance.GetOutput | profipp/src/SubmoduleInstance.cpp:126-151 | The buffer is filled with all slices in order exactly if every output produced one and they are not longer than the output length; the length is reported only then; bytes behind the output area stay. |
| Submodule.CollectProduces | profipp/src/SubmoduleInstance.cpp:126-151 | All outputs produce their slices exactly if each has a callback and none of the application's own fails. |
| Submodule.InitialiseTwice | profipp/src/SubmoduleInstance.cpp:9-49 | After two initialisations with typed items, setting the input with the bytes the instance says it needs succeeds exactly if the items are empty, and getting the output fails unless they are. |
| Submodule.TypedNeedTheirBytes | profipp/src/InputInstance.cpp:47-52 | Typed inputs accept exactly if there are bytes for all of them. |
| Submodule.DecodeEncode | profipp/include/Submodule.h:41-109 | Every value that fits its type arrives, strings cut to their item or continued by their terminator and what is behind it; it arrives unchanged exactly if it fills its item. |
| Submodule.StaysInString | profipp/include/Submodule.h:109-120 | The bytes copied for a string depend on the string alone exactly if the item is at most one byte longer. |
| Submodule.PutTyped | profipp/include/Submodule.h:93-120 | The byte loops put exactly the encoding of the value into its slice and touch nothing else. |
| Submodule.TakeTyped | profipp/include/Submodule.h:41-73 | The byte loops read exactly the value the slice encodes, or refuse a slice that is too short. |
| SubmoduleRoundTrip.SlicesInPlace | profipp/src/SubmoduleInstance.cpp:126-151 | Slices are contiguous and disjoint, each at its offset. |
| SubmoduleRoundTrip.InputsRestore | profipp/src/SubmoduleInstance.cpp:107-125 | Feeding an encoded buffer to the mirrored inputs delivers all values in order. |
| SubmoduleRoundTrip.Relay | profipp/src/SubmoduleInstance.cpp:9-151 | Two fresh submodules are initialised, and the outputs of one go through a buffer into the inputs of its mirror: all values arrive in order, mirror notified once. |
| SubmoduleRoundTrip.UnchangedIfExact | profipp/include/Submodule.h:62-120 | What arrives equals what was sent exactly if every string is as long as its item. |
| PlugMirror.ProfinetInternal.CallbackExpModuleInd | profipp/src/ProfinetInternal.cpp:1263-1332 | Pull, remove, plug and create for a module indication. |
| PlugMirror.ProfinetInternal.CallbackExpSubmoduleInd | profipp/src/ProfinetInternal.cpp:1349-1515 | Create the module if missing, pull, remove, plug, create and initialise for a submodule indication. |
| PlugMirror.PlugMirrorKept | profipp/src/ProfinetInternal.cpp:1263-1515 | Over any indications for any APIs, the keys of the instance map are always the plugged submodules, each instance belonging to one API and initialised exactly once, exactly if no indication pulls a module from a slot shared with another API or plugs over another API's submodule. |
| PlugMirror.MirrorNeedsOneApiPerSlot | profipp/src/DeviceInstance.cpp:36-62 | For a set of slots used by APIs, every sequence of indications keeps the mirror exactly if no slot is used by two APIs. |
| PlugMirror.InstancesFollowIndications | profipp/src/ProfinetInternal.cpp:1362-1397 | As long as the mirror is kept, a subslot has an instance exactly if it was last plugged and not pulled since, and it is a configured one exactly if its ids are in the configuration. |
| PlugMirror.ModulesFollowIndications | profipp/src/ProfinetInternal.cpp:1263-1447 | Over any indications for any APIs, which module instances there are and which of them are unknown follows from the indications: unknown exactly if the id is not configured, or if a submodule indication made it. |
| PlugMirror.ReturnsFollowIndications | profipp/src/ProfinetInternal.cpp:1263-1515 | A submodule indication returns 0 exactly if its plug is accepted, a module indication exactly if moreover the slot was free or its own. |
| PlugMirror.ModuleLeftBehind | profipp/src/ProfinetInternal.cpp:1421-1447 | One indication keeps module instances and plugged modules the same exactly except for a refused submodule plug into an empty slot, or a refused module plug when its API's module was plugged in the slot along with another API's. |
| PlugMirror.ModulesMirrorKept | profipp/src/ProfinetInternal.cpp:1263-1515 | Over any indications for any APIs, module instances and plugged modules are always the same exactly if none of those two kinds of indication comes. |
| PlugMirror.RefusedThoughPlugged | profipp/src/ProfinetInternal.cpp:1269-1304 | An accepted module plug reports failure exactly if an instance is in the slot and the API had no module there; while modules mirror the stack, exactly if another API has a module there and this one has none. |
| PlugMirror.RefusalSpoilsModule | profipp/src/ProfinetInternal.cpp:1263-1447 | From the empty device, a refused submodule plug makes the module plug after it fail although the stack accepts it. |
| PlugMirror.SecondApiIsRefused | profipp/src/ProfinetInternal.cpp:1263-1332 | After an accepted module indication for one API, one for another API and the same slot fails although its module is plugged, and nothing upset the mirrors before. |
| PlugMirror.TwoApisShareAnInstance | profipp/src/DeviceInstance.cpp:36-62 | Two APIs plugging the same subslot of any slot make an instance be initialised twice. |
| PlugMirror.ModuleIndicationDropsOther | profipp/src/ProfinetInternal.cpp:1263-1332 | Even with different subslots, a module indication for one API removes the other's instance although its submodule stays plugged. |
| Logging.WildCardMatch | profipp/src/easylogging.cc:862-884 | Terminates, and is true exactly if the string splits into consecutive pieces that the pattern's characters stand for. |
| Logging.RegisteredHitCounters.ValidateEveryN | profipp/src/easylogging.cc:1840-1849 | One call updates only its own counter and reports a hit as the count says. |
| Logging.PlacesAreIndependent | profipp/src/easylogging.cc:1840-1849 | In any mixture of calls a place that always asks for the same n has the count of its own calls. |
| Logging.CountKeepsRemainder | profipp/src/easylogging.h:2076-2081 | The reset keeps the count modulo n and within the limit. |
| Logging.EveryNthExactly | profipp/src/easylogging.cc:1840-1849 | Hits come at exactly the multiples of n for n from 1 to 100000 and for no larger n; never for 0. |

## Left out

- The other stack components: the scheduler's queue and its rounding of delays, frame id registration, buffer allocation, CMIO, CMDMC, FSPM and CMSU. What the CPM tells them is a log in its state; whether the scheduler accepts a timer and the stack a plug is an input.
- The CPM's diagnostic fields (`recv_cnt`, `free_cnt`, `errcnt`, `errline`, `max_exec`, `rxa`, `new_data`), the instance counter with the mutex it owns, and the second frame id, which is never used.
- CpmModel.CpmInstance.CDataInd: buffers are values with an identity, so reuse of a freed address is modelled only in `CpmExchange`; the XOR of old and new data status handed to the application is represented by the pair of both.
- CpmExchange.ExchangeIsARegister: no close or activation happens during a read.
- CpmRuns.BoundedStaleness: states one activation of an instance whose slots were empty; what close and re-activation change is `ReactivationKeepsOldData` and `ReadsAfterClose`.
- CpmWatchdog.SilenceBeforeExpiry: ticks are ideal, as the scheduler's rounding and lateness are not modelled.
- MailboxThreads.MessagesInOrder: works on the sequence of messages; that the ring buffer behaves as that sequence is proved of `Mailbox.Mbox`.
- Semaphore.CountAndCover: the locked sections are transitions on values, because the claims are about interleavings; so are those of `EventFlags`, `MailboxThreads`, `BackgroundWorker` and `CpmExchange`. Mutual exclusion is taken from the mutex.
- BackgroundWorker.NoLostJob: event bits are a set of jobs, one bit each; what the jobs do is not modelled.
- SynchronizationEvents.EventDelivery: that a pending abort is ever handled is not claimed, since cycles have priority over it in every pass.
- Submodule.SubmoduleInstance.GetOutput: after a failure the bytes within the output area are unspecified.
- Submodule.PutTyped: the memory behind a string's terminator is an input, taken to be readable as far as the copy goes.
- Codec.ToProfinet: only the little-endian host branches; floats travel as bit patterns.
- PlugMirror.ProfinetInternal.CallbackExpSubmoduleInd: instances are values in nested maps, so pointers into the maps are keys; a refused plug returns -1; data lengths and directions, the module init callback and the submodule's own initialisation (see `Submodule`) are not part of it.
- The Windows and FreeRTOS semaphores and events, timers, threads, sockets, files, GSDML export and logging back ends.
- Reading and writing parameters, default inputs (a stub in the source), LED and reset callbacks.

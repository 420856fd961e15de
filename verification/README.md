# A verified model of the PRUSS messaging stack

The repository lets a Linux host and the two PRU cores of a TI SoC exchange
messages: a C library for the PRU (virtqueues and RPMsg), firmware examples, a
kernel character driver, a socket daemon and C++ bindings.  This project models
the parts in which something can go wrong over time, and proves what they
promise, for every input, every interleaving and every length of run.

## How the project is organised

| module | what it models |
|---|---|
| `Words` | fixed-width arithmetic, C's `&`, masks against `mod` |
| `Virtqueue` | one split virtqueue (section 2.4 of VIRTIO 1.0): ring memory with 16-bit counters, history variables over unbounded counters, host steps and the single memory accesses of the PRU functions, and the invariant |
| `VirtqueueSafety`, `VirtqueueRuns` | every step keeps the invariant; what therefore holds after any run |
| `RpmsgFormat` | messages as bytes in a buffer |
| `EchoSystem`, `EchoSafety`, `EchoRuns` | the whole echo firmware against the host: two queues in one memory, the event, `main`'s control state; one step is one memory access of the firmware or one host action |
| `LateClear` | the same firmware with the event cleared after the drain, and what it loses |
| `VirtqueueCalls`, `RpmsgCalls`, `EchoFirmware` | the C functions and loops as methods on objects with the C fields, proved against the steps above |
| `VirtioRing` | layout of a vring and the event-index window |
| `MessageQueue`, `DriverLedger` | the character driver: its message queue, and what it holds |
| `Pwm` | the four-channel software PWM |
| `Text`, `Commands`, `RawSamples` | command lines from the C++ encoders through the daemon, and raw integers all the way to shared RAM |
| `Lifecycle` | the PRUSS and PRU objects as a trace of commands, with arbitrary replies |

There are two views of the virtqueue.  In `VirtqueueRuns` and `EchoRuns` the
host may act between any two memory accesses of the PRU.  In `VirtqueueCalls`
and `RpmsgCalls` a call runs undisturbed and is shown to be exactly the sequence
of those accesses, so the invariant the methods keep is the same one.

## What turned out differently from what one might expect

- `pru_virtqueue_add_used_buf` advances `used->idx` before it writes the element,
  first the id and then the length.  A host that trusts the index alone reads the
  right element, whatever the slot held, unless the call is between the index and
  the length and the host sees exactly one entry
  (`VirtqueueRuns.PollingIsRightIff`).  Going by what it sees, such a host is safe
  exactly when it leaves the last entry alone (`GapIsSafeIff`).
  `PollingCounterexample` is a run from initialisation in which it reads
  descriptor 0 while the PRU holds descriptor 1, and `PollingReadsInFlight` says
  what it reads once the ring has gone round.  The results about the host are
  therefore about hosts that read an element once it is written.
- The range test of `pru_virtqueue_add_used_buf` lets `head == num` and every
  negative head through (`VirtqueueCalls.PruVirtqueue.AddUsedBuf`).  That heads
  are indices comes from the ring invariant (`Virtqueue.NextHead`), not from it.
- `pru_virtqueue_init` sets only `last_avail_idx`.  On rings in use this keeps the
  invariant exactly when the number of heads taken so far is a multiple of 65536,
  as it is at the first start (`VirtqueueCalls.ResetIff`).
- `pru_rpmsg_receive` narrows both addresses to 16 bits, so "echo back to the
  same address" holds exactly when both are below 65536
  (`EchoRuns.EchoReturnsToSender`).
- The header comment of `pru_rpmsg_send` documents "buffer too small" for a buffer
  from the ring that is too small; the code compares with the constant 496.  The
  two agree for all lengths exactly when buffers are 512 bytes long
  (`RpmsgCalls.DocumentedAnswerIff`); `TooSmallThoughItFits` has 600 bytes refused
  although a buffer of 1024 is at hand.
- Clearing the event before the drain is essential: with the clear after it, every
  start with a transmit buffer has a run that loses a message for ever
  (`LateClear.LateClearLoses`), and the firmware as it is has none
  (`EchoRuns.WakeUpOverRuns`).
- In the driver, "FIFO empty" and "length ring empty" agree exactly when nothing is
  pending or some pending message is not empty (`MessageQueue.EmptyTogetherIff`),
  and in every state callbacks can reach exactly when none delivers an empty
  message (`AgreeAlwaysIffNoneEmpty`).  The FIFO-space test is redundant exactly
  for messages of at most 512 bytes, and a callback is refused only for a full
  length ring exactly up to 528 bytes.
- Callback and read do not exclude each other.  A read between the callback's
  `kfifo_in` and its store of the length returns the oldest message, and leaves
  FIFO and ring in step, exactly when another message is pending or the length
  left over in the slot covers the new one (`MessageQueue.ReadWhileArrivingIff`).
- `vring_size` takes a 16-bit ring size, `vring_init` a 32-bit one: the layout ends
  where `vring_size` says exactly for fewer than 65536 entries
  (`VirtioRing.SizeIsEndIff`).
- A PWM channel has the duty cycle on / (on + off + 1) for all time exactly when
  it has an off phase, or never drives its pin and the pin starts low
  (`Pwm.DutyCycleIff`).
- `PRU::pause` is also sent to a stopped core, which is then called HALTED;
  `Documentation/README.md` says it halts a running one.  The LOAD of `PRU::load`
  reaches a started core exactly when the core was started and the stop was
  refused (`Lifecycle.PRU.Load`).
- `PRU::setChannel` takes any name; the daemon is reached under it exactly when it
  is a single known word and the device is there (`Commands.TextReachesIff`,
  `Commands.WaitReachesIff`).

## Model

| member | source | states |
|---|---|---|
| Virtqueue.Exclusive | examples/lib/src/pru_virtqueue.c:84-127 | in a state that satisfies the invariant each descriptor index is in exactly one of host-free, published-not-taken, held, used-not-reclaimed, and nothing else is |
| Virtqueue.Room | examples/lib/src/pru_virtqueue.c:84-127 | the four shares add up to num, so neither ring can be overrun |
| Virtqueue.EmptyTestIsExact | examples/lib/src/pru_virtqueue.c:87-88 | the 16-bit equality test holds exactly when everything published has been taken |
| Virtqueue.UsedTestIsExact | examples/lib/src/pru_virtqueue.c:123 | the host's 16-bit test on used->idx is exact too, counting an entry that is still being written |
| Virtqueue.SlotRefines | examples/lib/src/pru_virtqueue.c:94 | the wrapped counter masked with num - 1 selects the slot of the unbounded counter modulo num |
| Virtqueue.NextHead | examples/lib/src/pru_virtqueue.c:94 | the head read next is the oldest published and not taken, and is below num |
| VirtqueueSafety.PublishKeepsInv | examples/lib/src/pru_virtqueue.c:84-127 | a host that publishes a free descriptor with a separate buffer keeps the invariant |
| VirtqueueSafety.ReclaimKeepsInv | examples/lib/src/pru_virtqueue.c:123-125 | reclaiming a written used entry keeps the invariant |
| VirtqueueSafety.CheckKeepsInv | examples/lib/src/pru_virtqueue.c:87-88 | the empty test keeps the invariant and goes on exactly when something is available |
| VirtqueueSafety.GrabKeepsInv | examples/lib/src/pru_virtqueue.c:94 | reading the head and advancing last_avail_idx keeps the invariant and takes the oldest head |
| VirtqueueSafety.FetchKeepsInv | examples/lib/src/pru_virtqueue.c:96-98 | the descriptor names a live buffer that holds what the host put there |
| VirtqueueSafety.FillKeepsInv | examples/lib/src/pru_rpmsg.c:111-117 | writing a held buffer keeps the invariant and disturbs no other buffer |
| VirtqueueSafety.BumpKeepsInv | examples/lib/src/pru_virtqueue.c:123 | advancing used->idx keeps the invariant |
| VirtqueueSafety.WriteIdKeepsInv | examples/lib/src/pru_virtqueue.c:124 | writing the id keeps the invariant, including every entry not reclaimed |
| VirtqueueSafety.WriteLenKeepsInv | examples/lib/src/pru_virtqueue.c:125 | writing the length completes the hand-over and keeps the invariant |
| VirtqueueSafety.FrameKeepsInv | examples/lib/src/pru_rpmsg.c:103-117 | writes outside a queue's buffers keep its invariant |
| VirtqueueSafety.SettledReclaimReads | examples/lib/src/pru_virtqueue.c:123-125 | a host that waits for the element reads exactly the one returned |
| VirtqueueRuns.RunKeepsInv | examples/lib/src/pru_virtqueue.c:74-128 | any interleaving of host steps and single PRU accesses keeps the invariant |
| VirtqueueRuns.FreshInv | examples/lib/src/pru_virtqueue.c:59-72 | a freshly initialised queue satisfies the invariant |
| VirtqueueRuns.Conservation | examples/lib/src/pru_virtqueue.c:84-127 | after any run every descriptor is in exactly one place, no counter is more than num ahead, and every live entry of both rings is still in its slot |
| VirtqueueRuns.WrapRefinement | examples/lib/src/pru_virtqueue.c:87-100 | after any run, however often the counters wrapped, empty test and slots are those of unbounded counters and the next head is the oldest published one |
| VirtqueueRuns.BuffersChangeHandsIntact | examples/lib/src/pru_rpmsg.c:100-126 | after any run, every buffer waiting for the PRU holds what the host published and every returned one not reclaimed holds what the PRU handed over |
| VirtqueueRuns.PollingIsRightIff | examples/lib/src/pru_virtqueue.c:123-125 | at every point of a run, a host reading on the index alone gets the intended element whatever the unwritten fields of the slot held if and only if an older element is unread, that is, unless the call is between index and length and the host sees exactly one entry |
| VirtqueueRuns.GapIsSafeIff | examples/lib/src/pru_virtqueue.c:123-125 | reading on the index alone is safe in every state with a given number of visible entries exactly when that number is not one |
| VirtqueueRuns.GapCounts | examples/lib/src/pru_virtqueue.c:123 | the 16-bit difference the host sees is the number of entries exposed and not reclaimed, at most num |
| VirtqueueRuns.PollingReadsInFlight | examples/lib/src/pru_virtqueue.c:123-125 | otherwise, once the ring has gone round, it gets the element returned num hand-overs earlier |
| VirtqueueRuns.PollingCounterexample | examples/lib/src/pru_virtqueue.c:123-125 | a run from a freshly initialised queue of two descriptors in which the one entry visible names a descriptor the host itself owns while the PRU holds the other |
| RpmsgFormat.EncodeBytes | examples/lib/src/pru_rpmsg.c:47-54 | every byte of a filled buffer: source and destination little-endian at 0 and 4, zeros at 8 and 14, the length at 12, the payload from 16, the rest as it was |
| RpmsgFormat.DecodeBytes | examples/lib/src/pru_rpmsg.c:47-54 | which bytes of a buffer make up source, destination, length and payload |
| RpmsgFormat.DecodeEncode | examples/lib/src/pru_rpmsg.c:47-54 | reading a filled buffer back gives source, destination and payload of the message sent |
| RpmsgFormat.AnnouncementReadable | examples/lib/src/pru_rpmsg.c:182-185 | the announcement goes from the port to address 53, is 72 bytes long, and name, description, port and flags are at their offsets |
| EchoSafety.ReclaimTxReads | examples/lib/src/pru_rpmsg.c:111-126 | a written used entry gives the host the next sent message, byte for byte |
| EchoRuns.RunKeepsSystemInv | examples/firmware_examples/archive_firmware/rpmsg_echo/main.c:96-108 | every interleaving of firmware accesses and host steps keeps the system invariant, and the firmware can always take its next step |
| EchoRuns.InOrderHandOver | examples/lib/src/pru_rpmsg.c:106-121 | in both queues the ids in the used ring are a prefix of the heads published, in order; between calls nothing is held and used->idx equals last_avail_idx |
| EchoRuns.HandsBackTheBuffer | examples/lib/src/pru_virtqueue.c:123-125 | after any run, the access that completes a hand-over returns the oldest head not returned, with its descriptor's length and its buffer's content |
| EchoRuns.WakeUpOverRuns | examples/firmware_examples/archive_firmware/rpmsg_echo/main.c:97-108 | after any run, a waiting message means a pending event, an owed kick, or a PRU that has yet to make its final empty check |
| LateClear.LateClearLoses | examples/firmware_examples/archive_firmware/rpmsg_echo/main.c:99-106 | with the clear behind the drain, every start with a transmit buffer and every message the host can deliver has a run that ends polling for ever with the message waiting, no event and no kick owed |
| LateClear.SomeStart | examples/firmware_examples/archive_firmware/rpmsg_echo/main.c:93-96 | there is such a start and such a message |
| EchoRuns.EndToEnd | examples/lib/src/pru_rpmsg.c:100-126 | what the host has read is, in order and byte for byte, the successful sends so far reclaimed, and the next read gives the next one |
| EchoRuns.ReceivedInOrder | examples/lib/src/pru_rpmsg.c:142-164 | what the PRU has received is exactly the oldest messages published, each once, in order: the low 16 bits of both addresses and the payload, by their bytes in the buffer |
| EchoRuns.EchoesOverRuns | examples/firmware_examples/archive_firmware/rpmsg_echo/main.c:96-106 | exactly one announcement however many attempts fail, then, for each message whose echo succeeded and in order, a message with its payload, its destination as source and its source as destination |
| EchoRuns.DropOnlyWhenEmpty | examples/firmware_examples/archive_firmware/rpmsg_echo/main.c:103-106 | an echo is given up only by a send that found no buffer |
| EchoRuns.EchoIsExact | examples/firmware_examples/archive_firmware/rpmsg_echo/main.c:103-106 | with a transmit buffer at every send, message i + 1 sent has the payload of message i published, its destination as source and its source as destination, modulo 2^16, and nothing else is sent but the announcement |
| EchoRuns.EchoReturnsToSender | examples/firmware_examples/archive_firmware/rpmsg_echo/main.c:104-105 | after any run, the echo of a published message is addressed to that message's source, from its destination, if and only if both fit 16 bits |
| EchoRuns.DrainsBacklog | examples/firmware_examples/archive_firmware/rpmsg_echo/main.c:97-108 | with the host quiet the firmware receives the whole backlog in finitely many steps and comes to rest polling |
| EchoRuns.StuckAnnouncing | examples/firmware_examples/archive_firmware/rpmsg_echo/main.c:96 | the only other case: no transmit buffer and the announcement retried for ever |
| VirtqueueCalls.PruVirtqueue.Init | examples/lib/src/pru_virtqueue.c:59-72 | rings and history stay as found and last_avail_idx becomes 0; the invariant then holds exactly when the heads taken so far are a multiple of 2^16 |
| VirtqueueCalls.ResetIff | examples/lib/src/pru_virtqueue.c:69 | setting last_avail_idx to 0 keeps the invariant of a queue exactly in that case |
| VirtqueueCalls.PruVirtqueue.GetAvailBuf | examples/lib/src/pru_virtqueue.c:74-101 | negative exactly when nothing is available and then without effect; otherwise the oldest head, with its buffer as the host filled it |
| VirtqueueCalls.PruVirtqueue.AddUsedBuf | examples/lib/src/pru_virtqueue.c:103-128 | refuses exactly heads above num; otherwise writes the next used slot, wrapped and masked, and nothing else |
| VirtqueueCalls.PruVirtqueue.Kick | examples/lib/src/pru_virtqueue.c:130-149 | writes R31 exactly when bit 0 of the avail flags is clear, and then the offset of the event from 16 with bit 5 set |
| VirtqueueCalls.StrobeNames | examples/lib/src/pru_virtqueue.c:141 | the value written names to_arm_event exactly when it is an event the PRU can raise, and then it is 32 plus the offset |
| VirtqueueCalls.TakeHeadIs | examples/lib/src/pru_virtqueue.c:87-100 | the accesses of a successful get_avail_buf together take the oldest head and change nothing else |
| VirtqueueCalls.ReturnHeadIs | examples/lib/src/pru_virtqueue.c:123-125 | the three accesses of add_used_buf together append one completed element |
| RpmsgCalls.Transport.Init | examples/lib/src/pru_rpmsg.c:63-81 | succeeds exactly for two events the PRU can raise, otherwise nothing is set up; what the host has already published stays, and the transport is in order exactly when both queues have had a multiple of 2^16 heads taken |
| RpmsgCalls.Transport.Send | examples/lib/src/pru_rpmsg.c:83-127 | results -2, -1 and 0 exactly under their conditions, tested in that order; success stores the message, moves one descriptor and writes R31 once, unless the host asked not to be kicked; failure changes nothing and writes nothing; INVALID_HEAD never occurs |
| RpmsgCalls.SentMeans | examples/lib/src/pru_rpmsg.c:106-121 | what a send leaves: the oldest buffer back under its own id and length, holding bytes that read as the message, the rest of memory as it was |
| RpmsgCalls.DocumentedAnswerIff | examples/lib/src/pru_rpmsg.c:100-101 | the answer "buffer too small" is the documented one for all 16-bit lengths exactly when the buffer is 512 bytes long |
| RpmsgCalls.TooSmallThoughItFits | examples/lib/src/pru_rpmsg.c:100-101 | a state with a buffer of 1024 bytes at hand in which 600 bytes are answered with "buffer too small" |
| RpmsgCalls.Transport.Receive | examples/lib/src/pru_rpmsg.c:129-165 | succeeds exactly when a message waits, delivers the oldest and writes R31 once, unless the host asked not to be kicked; otherwise nothing changes; INVALID_HEAD never occurs |
| RpmsgCalls.TookMeans | examples/lib/src/pru_rpmsg.c:151-158 | what a receive reports, by the bytes of the buffer, and that the buffer goes back as it was under its own id and length |
| RpmsgCalls.Transport.Channel | examples/lib/src/pru_rpmsg.c:167-186 | the buffer handed over reads as a message from the port to 53 with name, description, port and flags at their offsets, and R31 is written as for a send; or nothing changes |
| RpmsgCalls.StoresEncode | examples/lib/src/pru_rpmsg.c:111-117 | the stores of send, in their order, write the encoded message into the buffer and touch no other byte |
| RpmsgCalls.ExchangeKeeps | examples/lib/src/pru_rpmsg.c:106-126 | taking, filling and returning one buffer keeps the queue's invariant and order |
| EchoFirmware.Attempt | examples/firmware_examples/archive_firmware/rpmsg_echo/main.c:96 | one try hands over a buffer that reads as the announcement from the port to 53 with flags 0, field by field, or nothing |
| EchoFirmware.Announce | examples/firmware_examples/archive_firmware/rpmsg_echo/main.c:96 | with the host acting after every failed attempt, exactly one buffer is handed over when the loop ends, which reads as that announcement, and none before |
| EchoFirmware.Drain | examples/firmware_examples/archive_firmware/rpmsg_echo/main.c:103-106 | with the host quiet the loop ends, has received every waiting message, and the buffers handed over answer the first of them in order, as many as there were buffers |
| EchoFirmware.AnswerFields | examples/firmware_examples/archive_firmware/rpmsg_echo/main.c:105 | the j-th answer has the payload of the j-th waiting message, its destination as source and its source as destination, modulo 2^16 |
| EchoFirmware.EchoNext | examples/firmware_examples/archive_firmware/rpmsg_echo/main.c:103-105 | one turn takes the next waiting message; with a buffer it hands over one that reads as the same payload from its destination to its source, modulo 2^16; the loop ends exactly when none waits |
| VirtioRing.MaskUpIsRoundUp | examples/include/pru_virtio_ring.h:138-145 | for every uint64_t power of two align the mask expression rounds a 32-bit offset up to a multiple of align |
| VirtioRing.Vring.Init | examples/include/pru_virtio_ring.h:132-140 | the three regions do not overlap, the used ring is aligned, and the end with its trailing event field is base + vring_size if and only if num fits vring_size's 16-bit parameter |
| VirtioRing.SizeIsEnd | examples/include/pru_virtio_ring.h:142-147 | vring_size is the distance from an aligned base to the end of the used ring with its trailing field |
| VirtioRing.SizeFormula | examples/include/pru_virtio_ring.h:142-147 | vring_size is 18 num + 6 rounded up to align, plus 6 + 8 num |
| VirtioRing.SizeIsEndIff | examples/include/pru_virtio_ring.h:132-147 | for 32-bit ring sizes it is so exactly below 2^16 |
| VirtioRing.NeedEventIsWindow | examples/include/pru_virtio_ring.h:153-161 | true exactly when the event index is among those passed from old up to, not including, new |
| VirtioRing.ExactlyOneBatchFires | examples/include/pru_virtio_ring.h:153-161 | a run of fewer than 2^16 increments split in any way fires exactly once if the event is in it, else never |
| MessageQueue.PrussApiDev.constructor | drivers/pruss_api.c:228-268 | the new device holds no message and is not locked |
| MessageQueue.PrussApiDev.Callback | drivers/pruss_api.c:193-219 | a message is appended whole or refused without effect, refused exactly when 31 are pending or its bytes do not fit |
| MessageQueue.PrussApiDev.Read | drivers/pruss_api.c:110-133 | returns exactly the oldest accepted message not yet read, or waits or -EAGAIN exactly when no byte is pending |
| MessageQueue.PrussApiDev.Poll | drivers/pruss_api.c:164-180 | readable exactly when a non-empty message is pending, always writable |
| MessageQueue.PrussApiDev.Open | drivers/pruss_api.c:75-94 | succeeds exactly when no one has the device open |
| MessageQueue.PrussApiDev.Release | drivers/pruss_api.c:96-105 | the device can be opened again |
| MessageQueue.SpellsIn | drivers/pruss_api.c:206-214 | appending to FIFO and length ring appends one message; the index test means exactly 31 pending |
| MessageQueue.SpellsOut | drivers/pruss_api.c:128-130 | taking msg_len[rd] bytes and advancing rd removes exactly the first message |
| MessageQueue.EmptyTogetherIff | drivers/pruss_api.c:119-124 | FIFO empty and length ring empty agree if and only if nothing is pending or some pending message is not empty |
| MessageQueue.AgreeAlwaysIffNoneEmpty | drivers/pruss_api.c:119-124 | they agree in every queue that callbacks with a given set of messages can build if and only if the set has no empty message |
| MessageQueue.ReadWhileArrivingIff | drivers/pruss_api.c:212-214 | a read between kfifo_in and the length store returns the oldest message, and the state is a queue of messages afterwards, if and only if another message is pending or the left-over length covers the new one |
| MessageQueue.ReadWhileArrivingAlwaysIff | drivers/pruss_api.c:212-214 | such a read is right whatever the slot held if and only if another message is pending |
| MessageQueue.Reachable | drivers/pruss_api.c:201-214 | the pending queues callbacks can build are exactly those that fit FIFO and ring |
| MessageQueue.SpaceAlwaysIffBounded | drivers/pruss_api.c:201-204 | the FIFO-space test can never refuse a message if and only if messages have at most 512 bytes |
| MessageQueue.RefusedOnlyWhenFullIffBounded | drivers/pruss_api.c:201-210 | a callback is refused exactly when 31 messages are pending, for message bounds up to 528 bytes and no larger |
| DriverLedger.PrussApiDriver.Init | drivers/pruss_api.c:320-352 | all three global resources or, on any failure, none |
| DriverLedger.PrussApiDriver.IdrAlloc | drivers/pruss_api.c:232-241 | a free minor below 8, or an error without effect exactly when it faults or all are taken |
| DriverLedger.PrussApiDriver.Probe | drivers/pruss_api.c:222-289 | succeeds exactly when no acquisition fails and a minor is free; a failing call leaves the ledger as it was |
| DriverLedger.PrussApiDriver.Remove | drivers/pruss_api.c:291-303 | gives back all the device held and its minor, and nothing else |
| DriverLedger.PrussApiDriver.Exit | drivers/pruss_api.c:354-361 | afterwards nothing is held |
| DriverLedger.PrussApiDriver.Do | drivers/pruss_api.c:222-361 | the ledger after each call, given the failures it meets: unchanged when it fails, changed for its own device only when it succeeds |
| DriverLedger.PrussApiDriver.Run | drivers/pruss_api.c:222-361 | after any run of init, probe, remove and exit, each made in turn with any failures, live devices have distinct minors below 8, as many as minors in use; without the driver nothing is held |
| DriverLedger.LiveMinors | drivers/pruss_api.c:232-243 | live devices and minors in use are equally many, at most 8 |
| DriverLedger.ConsistentAdd | drivers/pruss_api.c:232-272 | a probed device keeps minors distinct and below 8, one per device |
| DriverLedger.ConsistentRemove | drivers/pruss_api.c:297-302 | so does removing one |
| Pwm.CountersByPhase | examples/firmware_examples/example5-multichannel-pwm/multich-pwm-c/multi.c:32-43 | at all times the counters depend only on the round modulo on + off + 1 |
| Pwm.ClosedForm | examples/firmware_examples/example5-multichannel-pwm/multich-pwm-c/multi.c:32-43 | the pin after every round in closed form, for all on and off |
| Pwm.DutyCycleIff | examples/firmware_examples/example5-multichannel-pwm/multich-pwm-c/multi.c:16-43 | the pin is high exactly when t mod (on + off + 1) < on, for all t, if and only if off > 0, or on = 0 and the pin starts low |
| Pwm.Turn | examples/firmware_examples/example5-multichannel-pwm/multich-pwm-c/multi.c:32-43 | one turn changes its own channel's counters and bit as specified and nothing else |
| Pwm.Rounds | examples/firmware_examples/example5-multichannel-pwm/multich-pwm-c/multi.c:24-45 | for any number of rounds every channel follows its closed form independently of the others, and the other 28 output bits never change |
| Text.SplitAt | prussd/prussd.py:281 | splitting distributes over whitespace |
| Text.SplitStrip | prussd/prussd.py:278-281 | stripping the line does not change its words |
| Text.SplitJoin | prussd/prussd.py:185 | splitting undoes joining with blanks |
| Text.NormaliseIdempotent | prussd/prussd.py:185 | re-joining the words of a re-joined message changes nothing |
| Text.NormaliseFixesExactlyNormal | prussd/prussd.py:185 | a message comes through unchanged exactly when it has single blanks between words and none at its ends |
| Text.ParseIntIff | prussd/prussd.py:162-167 | int() accepts exactly an optional sign and then at least one character, all digits or underscores, a digit first and last, no two underscores together |
| Text.ParseIntMeans | prussd/prussd.py:162-167 | its value: a digit counts itself, one more digit, with or without an underscore, makes it ten times plus the digit, + keeps and - negates it |
| Text.DecCanonical | cpp-bindings/pruss.cpp:426-430 | a printed integer has only digits, no leading zero, and a minus exactly when negative |
| Text.ParseDec | prussd/prussd.py:163-165 | int() of a printed integer is that integer |
| Commands.TextRoundTrip | cpp-bindings/pruss.cpp:409-413 | a text message reaches its channel and port as the words of its first line joined by blanks plus a newline; the three refusals exactly under their conditions |
| Commands.ArrivesUnchangedIff | cpp-bindings/pruss.cpp:409-413 | the text is the message itself exactly when that has single blanks between words and no other whitespace |
| Commands.TextReachesIff | cpp-bindings/pruss.cpp:376-383 | under a channel name set by the user the daemon is reached if and only if the name is one known word, the device is there and the message has a word |
| Commands.WaitReachesIff | cpp-bindings/pruss.cpp:376-383 | the same for waiting |
| Commands.RawRoundTrip | cpp-bindings/pruss.cpp:426-430 | any raw message arrives as the four little-endian bytes of the integer its first word spells, exactly when it spells one that fits an int; every refusal under its condition |
| Commands.RawRefusedIff | prussd/prussd.py:164-167 | on a known channel with its device there, a raw message is refused exactly when it has no word or its first word is not of the form of an integer |
| Commands.WaitRoundTrip | cpp-bindings/pruss.cpp:455-472 | a wait reaches its channel and port with the timeout given, if any |
| Commands.WordsOfLine | prussd/prussd.py:278-281 | the daemon's words are those of the first line sent, whatever follows it in the socket |
| Commands.SendWords | cpp-bindings/pruss.cpp:409-430 | the words of the line sent are SENDMSG, the mode, the channel, the port and then those of the message |
| Commands.DispatchText | prussd/prussd.py:156-186 | the SENDMSG s branch for any words, its checks in order, malformed ports included |
| Commands.DispatchRaw | prussd/prussd.py:156-192 | the SENDMSG r branch for any words: malformed numbers are refused, others packed in two's complement little-endian or fail |
| Commands.DispatchWait | prussd/prussd.py:196-221 | the EVENTWAIT branch for any port and timeout words |
| Commands.DispatchNoMode | prussd/prussd.py:156-194 | any other mode is checked alike and then nothing is written |
| Commands.DispatchRest | prussd/prussd.py:284-312 | every other request: unknown commands and messages or waits with the wrong number of words are -22, the rest of the table is called |
| RawSamples.SampleReceiver.Store | examples/firmware_examples/example9-multichannel-waveform-gen/PRU1/main.c:121-143 | the first message is stored as a 32-bit word, each later one as a byte behind, and nothing else changes |
| RawSamples.ImageAt | examples/firmware_examples/example9-multichannel-waveform-gen/PRU1/main.c:123-142 | word 0 is the first value and byte 3 + k the low byte of value k |
| RawSamples.SendOne | prussd/prussd.py:189-192 | printed, parsed and packed, an int is four bytes that read back as it |
| RawSamples.SendSamples | examples/firmware_examples/example9-multichannel-waveform-gen/PRU1/main.c:121-143 | a list of ints sent raw leaves its first value in the word at offset 0, the low byte of value k at 3 + k, the rest of shared RAM untouched |
| Lifecycle.OffIffNone | cpp-bindings/pruss.cpp:143-175 | in every trace these objects can produce, off means exactly that each core is NONE |
| Lifecycle.HaltedIffPaused | cpp-bindings/pruss.cpp:286-317 | a core is HALTED exactly when the last accepted command affecting it was PAUSE |
| Lifecycle.ResumeFollowsPause | cpp-bindings/pruss.cpp:307-317 | RESUME_n is sent only when the last accepted state command affecting n was PAUSE_n |
| Lifecycle.EnablesAreSeparated | cpp-bindings/pruss.cpp:232-261 | between two accepted ENABLE_n there is an accepted DISABLE_n or UNPROBE |
| Lifecycle.PRU.Enable | cpp-bindings/pruss.cpp:232-242 | what is sent and returned from every state; the state follows the trace |
| Lifecycle.PRU.Disable | cpp-bindings/pruss.cpp:251-261 | the same for DISABLE |
| Lifecycle.PRU.Reset | cpp-bindings/pruss.cpp:271-275 | a started core is disabled and, only if that was accepted, enabled again |
| Lifecycle.PRU.Pause | cpp-bindings/pruss.cpp:286-296 | the same for PAUSE, sent to stopped cores too |
| Lifecycle.PRU.Resume | cpp-bindings/pruss.cpp:307-317 | the same for RESUME, sent only to a halted core |
| Lifecycle.PRU.Load | cpp-bindings/pruss.cpp:340-349 | the new commands: LOAD for a core that is NONE; LOAD, ENABLE for a stopped one; DISABLE, LOAD and, exactly if the DISABLE was accepted, ENABLE for a started one; LOAD reaches a started core if and only if the core was started and the DISABLE refused; the result is the answer to LOAD |
| Lifecycle.PRUSS.constructor | cpp-bindings/pruss.cpp:104-112 | exactly DISABLE_0, DISABLE_1 and the probe are sent, and the system is on exactly when the probe was accepted |
| Lifecycle.PRUSS.BootUp | cpp-bindings/pruss.cpp:143-153 | probes exactly when off; accepted, both cores are STOPPED |
| Lifecycle.PRUSS.ShutDown | cpp-bindings/pruss.cpp:163-175 | the whole trace: one DISABLE for each started core, then UNPROBE, exactly when on; accepted, both cores are NONE |
| Lifecycle.PRUSS.Restart | cpp-bindings/pruss.cpp:185-189 | the whole trace: a shut-down, and a probe exactly when the unprobe was accepted; only a probe when off |
| Lifecycle.PRUSS.Run | cpp-bindings/pruss.cpp:104-349 | any sequence of operations, each made in turn, under any replies gives a legal trace, with off exactly when both cores are NONE |

## Left out

Assumptions about the other side and the surroundings:

- The host publishes only descriptors it owns, one per chain, with buffers of at least 512 bytes that do not overlap and lie below 2^32; each queue's buffers lie in their own region of memory.  Publishing (descriptor, buffer, ring entry, index) is one step, since the index is written last and the PRU reads nothing before it; the kick is a separate step.
- The host reads a used element once it is written; what happens otherwise is stated by `PollingIsRightIff`.
- The echo system starts after `pru_rpmsg_init`, with whatever the host has published by then announced by a pending event or an owed kick; the clear at line 86 of `main.c` and the wait for the driver's status come before.
- The kicks from PRU to host are the values written to R31 in `VirtqueueCalls` and `RpmsgCalls`; `EchoSystem` leaves them out, and what the host does on them is not part of this model.
- Memory ordering between the cores is taken as sequential.
- Descriptor chains, `next`, indirect descriptors and event-index suppression: the PRU code never uses them; `vring_need_event` is treated on its own.
- The copying of a payload (`memcpy`) is one step of the echo system; in `RpmsgCalls` it is a loop over bytes.

What members leave unsaid:

- RpmsgCalls.Transport.Receive: takes messages whose length field is at most 496, which the host's RPMsg layer guarantees and the code does not test; beyond that the copy would leave the buffer, which is not part of this model.
- EchoFirmware.HostTurn: its contract allows everything a host may do between two calls; callers see only the contract, its body does nothing.
- RpmsgCalls.Transport.Channel: takes 32 readable bytes for name and description each, which is what the copying loop reads even when the strings are shorter.
- EchoFirmware.Announce: the retry loop is cut off after `patience` attempts, since a host that never gives a buffer makes it run for ever (`EchoRuns.StuckAnnouncing`).
- EchoFirmware.Drain: takes the host as quiet; the interleaved case is `EchoRuns`.
- EchoRuns.DrainsBacklog: asks for a transmit buffer while the announcement is outstanding; without one the firmware retries, as `StuckAnnouncing` says.
- Pwm.Rounds: the endless loop is cut off after any number of rounds; R30 is its 32 bits, counters are naturals below 2^32.
- VirtqueueCalls.PruVirtqueue.Init: the rings are those found in memory; `vring_init` is modelled in `VirtioRing` and its addresses are not tied to the queue objects.
- VirtioRing.Vring.Init: takes layouts that end below 2^32.
- MessageQueue.PrussApiDev.Callback: callback, read, open and release are atomic steps; a read in the middle of a callback is the subject of `ReadWhileArrivingIff`.
- MessageQueue.PrussApiDev.Read: the copy to user space succeeds and the user's buffer is large enough; interruption by a signal is not modelled.
- DriverLedger.PrussApiDriver.Probe: the memory from `devm_kzalloc` belongs to the device core and is released by it.
- DriverLedger.PrussApiDriver.Exit: unregistering the driver removes every bound device first, which is what the rpmsg bus does; the empty IDR and the mutex hold nothing further.
- Commands.TextRoundTrip: messages contain no `%` and no NUL and are shorter than the socket buffer, so that the line sent is the line built; whether the device appears in time and which channels exist are parameters.
- Text.ParseDec: `int()` is modelled for ASCII digits with signs and underscores, without Python's limit on the number of digits; UTF-8 decoding is the identity here.
- RawSamples.SendSamples: every raw message becomes one RPMsg message, and shared RAM has room for the list.
- Lifecycle.PRUSS.Run: replies are arbitrary integers, a reply that is no integer is not modelled; user copies of PRU objects, which carry their own state, and the destructor, which only calls `shutDown`, are not modelled.

Parts of the repository that are not modelled: register headers and resource
tables, sockets, sysfs, `/dev/mem` and file handling, kernel internals (kfifo,
idr, cdev, wait queues: taken as bounded sequences, sets and atomic sections),
`pruss_api_write`, floating-point code, PRU assembly routines, the C, Node and
Python bindings and the remaining examples, which are thin users of the same
interfaces.

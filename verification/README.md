# Verified model of the radio coprocessor firmware

A Dafny model of the stateful core of the BlazeNet radio firmware (`host-radio/`): the packet handler and
the radio loop that drives it, the NOR flash driver with the superblock and boot path on top, the indicator
animation engine, and the host interface that connects the receive queue to the SPI bus and the interrupt
line. `dafny verify dfyconfig.toml` checks everything.

## How the model is built

**Transmitting** (`TxScheduler`, `PacketTransmitter`, `MapSum`). `TxScheduler` is a reference scheduler
without shortcuts: every accepted packet joins its class's queue and the best queue front starts when the
air is free. Runs are sequences of events, and ordering, priority, the attempt bound, the failure counter
and draining are proved over all of them. `PacketTransmitter.Handler` is the firmware's own state: counters,
queues, the in-flight slot, the C heap. Its invariant says that after any sequence of calls it is in the state of
`Run(events)`, that its record of transmissions is the scheduler's, that each outstanding buffer is alive, that
each non-sticky one is outstanding exactly once, and that the byte total is the sum over live buffers. Refinement is the invariant; `Guarantees` reads the
run properties back as statements about the real fields, and `Serve` is a run with a beacon in it.

**Receiving** (`PacketReceiver`, `Irq`, `HostIf`). The receive invariant ties the queue, the buffer checked
out to the host, the byte pool, the statistics (including what the host was already told), the order of
arrival and the interrupt together. `HostIf.Interface` adds the transfer protocol and every command. What
becomes of the interface after a transfer is a function of the transfer and three questions about the state
(`Outcome`), and the loop is proved equal to it, step by step; what the host is told by a read is one function of the state
(`Reply`).

**Flash** (`Bits`, `NorChip`, `EraseTiling`, `Flash`, `Superblock`). The chip is explicit: command frames,
write-enable latch, busy state, a page latch that wraps, cells that programming can only clear, transfers that fail
after any prefix of their bytes. It may get ready at any time. The driver is proved against it for every geometry with power-of-two units
in 24 address bits, and from an arbitrary chip state; it reports an I/O error exactly if a transfer failed, which a ghost
count of failures records, and a timeout only after its deadline. Bitwise masks are defined bit by bit, so the rounding arithmetic
is proved. The boot path is carried through to `Lifetime`, a statement about a device over any number of boots.

**Indicators** (`AnimScript`, `Indicators`). `Replay` is three channels without a timer, in which a tick
resumes whoever is due if anybody asks for it; the engine with its one timer is proved to do the same. `Timeline`
is what a channel shows if its script is played alone, only delays added up; a channel of `Replay` is proved
to follow it as long as it is never late.

Loops, mutation and early returns follow the sources. Environment choices (whether malloc, the radio or a
transfer succeeds, how long the chip is busy, how late a sleeper wakes) are parameters or nondeterministic.

## Where the code departs from its evident intent

The model follows the code in each case, and the exact condition is proved.

- Re-queueing a sticky packet does not undo the pending count when the immediate start fails
  (Packet/Handler.cpp:184). `QueueSticky` keeps the ledger exactly in the other cases; afterwards no submission
  starts a packet (`Wedged`). `RefusedFirstBeacon` is the failing input.
- Replacing a beacon payload discards a packet as if it were pending (BlazeNet/Beacon.cpp:112-115).
  That breaks the ledger (`Broken`) in every state but one: with the transmitter wedged and nothing queued it
  is just what repairs it. The bus reaches this through BeaconConfig, so a run of the interface is sound up to a
  second payload.
- The requirement after queueing an acknowledgement has the wrong sense (Radio/Task.cpp:436): `QueueAck`
  panics exactly when the acknowledgement was queued.
- A failed start leaves the critical section open (Radio/Task.cpp:227-241); the nesting is part of the state.
- An unsupported or failed read arms no further transfer (HostIf/Task.cpp:180-196), and a payload that
  arrives empty ends the loop (HostIf/Task.cpp:79-82). `Outcome` lists every case.
- Identifier 0x0B passes the range check (HostIf/Task.cpp:112) and selects a handler past the end of the
  table; a packet read or a queue status read with an empty queue takes the front of nothing. The outcomes are
  `Undefined`.
- The driver's page guard always looks at eight address bits (Fs/Flash.cpp:177): exact only for 256-byte pages.
- Neither `write` nor `erase` waits for an earlier operation, and the 3 ms timeout of a page program is 0 ticks. A chip
  still busy ignores the first command of the next call unless it gets ready in time, and the call can report success
  either way: `Lost` and `Skipped` bound what can be missing, `BusyChipLosesWrites` shows both.
- A superblock whose writing was interrupted after its first byte is no longer blank, so it is never formatted
  again (Fs/Init.cpp:155-202). What the boots do instead depends on how much arrived: see `InterruptedFormat`.
- A script whose first delay is zero leaves its channel neither idle nor waiting (Hw/Indicators.cpp:246-252).
- A zero delay leaves the tick on record (Hw/Indicators.cpp:95-97). Once, the minimum period makes it one
  tick; right after another it leaves a tick that has passed, whose distance wraps to almost 2^32, so the channel is
  resumed only when the timer goes off for another one.
- Enabling the beacon without a payload panics when the timer fires (BlazeNet/Beacon.cpp:141).

## Model

| member | source | states |
|---|---|---|
| TxScheduler.StepKeepsInv | host-radio/Sources/Packet/Handler.cpp:299-323 | every event keeps the scheduler's shape: four queues within their 16 slots (no insertion into a full queue), a failure count for every outstanding buffer, and nothing waiting while the air is free |
| TxScheduler.StartsAtOnce | host-radio/Sources/Packet/Handler.cpp:307-310 | the fast path is sound: with nothing on the air, joining a queue and dispatching the best packet is the same as starting the new packet directly and leaving the queues as they were |
| TxScheduler.TopClass | host-radio/Sources/Packet/Handler.h:250-264 | the class served next has a packet and every higher class is empty; there is none only when all queues are empty |
| TxScheduler.DispatchKeeps | host-radio/Sources/Radio/Task.cpp:260-280 | dispatching moves a packet from its queue to the air: the outstanding buffers as a multiset, the pending count and the failure counts are unchanged |
| TxScheduler.ClassesAreFifo | host-radio/Sources/Packet/Handler.h:250-264 | over every run, per class, the accepted packets are those whose first transmission is on record, in the same order, followed by the queue: nothing lost, duplicated or overtaken |
| TxScheduler.PriorityIsRespected | host-radio/Sources/Packet/Handler.h:239-264 | in every reachable state an event begins at most one transmission: another attempt at the packet on the air, or the start of one with every higher class empty; and the radio never rests while a packet waits |
| TxScheduler.AttemptsAreBounded | host-radio/Sources/Radio/Task.cpp:138-156 | over every run at most five transmissions begin per accepted packet, although re-queueing a sticky packet clears its failure count while it is queued or on the air |
| TxScheduler.FifthBusyDrops | host-radio/Sources/Radio/Task.cpp:138-156 | four busy reports in a row leave a fresh packet on the air, each with one more attempt and the queues untouched; the fifth drops it and the next in line starts |
| TxScheduler.FailCountsFit | host-radio/Sources/Radio/Task.cpp:142 | over every run every channel-busy count is at most 69, so the 8-bit counter never wraps |
| TxScheduler.ReportsReduceWork | host-radio/Sources/Radio/Task.cpp:132-156 | every sent or busy report strictly reduces the number of reports the outstanding packets can still cause |
| TxScheduler.Drains | host-radio/Sources/Radio/Task.cpp:132-156 | with nothing accepted, any mixture of sent and busy reports leaves nothing pending after at most five per outstanding packet |
| TxScheduler.AcceptFacts | host-radio/Sources/Packet/Handler.cpp:299-323 | effect of an acceptance on queues, air, failure counts, outstanding buffers and pending count, in both the idle and the busy case |
| TxScheduler.CompleteFacts | host-radio/Sources/Radio/Task.cpp:260-280 | effect of a completion: exactly one occurrence of one buffer leaves, the pending count drops by one, the front of the best class starts if there is one |
| PacketTransmitter.Handler.TxPacketImmediate | host-radio/Sources/Radio/Task.cpp:221-252 | for each answer of the radio the error code and the whole effect: on success the packet is on the air and recorded; on failure nothing is recorded and the critical section stays open |
| PacketTransmitter.Handler.PopTxQueue | host-radio/Sources/Packet/Handler.h:250-264 | removes and returns the front of the highest non-empty class, or reports that there is none |
| PacketTransmitter.Handler.AllocTxPacket | host-radio/Sources/Packet/Handler.cpp:197-240 | succeeds exactly when the 4096-byte pool and the C heap allow it; the byte total stays the sum over live buffers and the 16-bit size is not truncated; exactly the refusals flag the overflow, and announce the empty queue exactly if nothing is pending |
| PacketTransmitter.Handler.DiscardTxPacket | host-radio/Sources/Packet/Handler.cpp:333-346 | frees the buffer unless it is sticky and unforced, gives back exactly its bytes, counts it off modulo 2^32; TxQueueEmpty is raised exactly if that leaves nothing pending |
| PacketTransmitter.Handler.QueueTxPacketFinal | host-radio/Sources/Packet/Handler.cpp:299-323 | the whole new state of the common submission path: started directly when nothing is pending, appended otherwise, counter raised even if the start fails; TxQueueEmpty is raised exactly if the call ends with nothing pending, and no other interrupt |
| PacketTransmitter.Handler.QueueTxPacket | host-radio/Sources/Packet/Handler.cpp:253-287 | keeps the handler in step with the reference scheduler for any payload, class, allocation outcome and answer of the radio; succeeds exactly when queue (16), pool (4096 bytes) and heap have room and something is pending or the radio starts, and the packet is then on the air or last in its queue; otherwise heap, queues and ledger are as they were; TxQueueEmpty is raised exactly if nothing is pending at the end |
| PacketTransmitter.Handler.QueueSticky | host-radio/Sources/Packet/Handler.cpp:168-185 | re-queueing a sticky buffer keeps the ledger if and only if the queue is full, something is pending, or the radio starts; otherwise the handler is wedged: one pending too many, nothing on the air, and no submission starts a packet from then on; TxQueueEmpty is raised exactly if nothing is pending at the end |
| PacketTransmitter.RefusedFirstBeacon | host-radio/Sources/Packet/Handler.cpp:184 | the failing input: from power-up, a first beacon that the radio refuses wedges the transmitter |
| PacketTransmitter.ReplacedBeacon | host-radio/Sources/BlazeNet/Beacon.cpp:112-115 | the failing input: from power-up, a second payload leaves a broken ledger with the counter at 2^32 - 1 |
| PacketTransmitter.Handler.HandleTxComplete | host-radio/Sources/Radio/Task.cpp:260-280 | completion follows the reference scheduler and panics exactly when another packet is pending and the radio does not start; the heap loses exactly the finished buffer, or nothing if that is sticky; TxQueueEmpty is raised exactly if nothing is pending any more |
| PacketTransmitter.Handler.StartNext | host-radio/Sources/Radio/Task.cpp:268-279 | whenever something is pending a packet is popped and transmitted: the "failed to pop tx packet" panic is unreachable, and the result is the reference scheduler's |
| PacketTransmitter.Handler.OnPacketTransmitted | host-radio/Sources/Radio/Task.cpp:132-136 | a sent report is the reference scheduler's Sent event, counted as a good frame; exactly the finished buffer is freed unless sticky; TxQueueEmpty is raised exactly if nothing is pending any more; panics exactly when another packet is pending and the radio does not start |
| PacketTransmitter.Handler.OnTxChannelBusy | host-radio/Sources/Radio/Task.cpp:138-156 | a busy report is the reference scheduler's Busy event: retried with the count raised, dropped and its buffer freed unless sticky at the fifth failure; TxQueueEmpty is raised exactly if nothing is pending any more; panics if and only if the radio does not start and either a retry is left or another packet is pending |
| PacketTransmitter.Handler.Guarantees | host-radio/Sources/Packet/Handler.cpp:253-346 | in every sound state: nothing on the air iff nothing pending; the counter is the four queue lengths plus one on the air; per class, accepted packets are those in the radio's own transmission history, retries left out, followed by the real queue; at most five transmissions per accepted packet and five requests to the radio per submission past the full-queue check, refused ones included; once nothing is pending only sticky buffers are alive; at most 4096 bytes allocated |
| PacketTransmitter.Handler.StartsRespectPriority | host-radio/Sources/Packet/Handler.h:239-264 | every transmission the handler begins is another attempt at the packet on the air, or the first of a packet with every higher real queue empty |
| PacketTransmitter.Handler.Drain | host-radio/Sources/Radio/Task.cpp:132-156 | the handler itself drains: after five reports of any kind per pending packet nothing is pending and TxQueueEmpty is active, with all sticky buffers alive, unless the radio refuses a start |
| PacketTransmitter.Serve | host-radio/Sources/Packet/Handler.cpp:168-380 | over any run of submissions, beacons, radio reports, read-outs of the statistics and at most one beacon payload: the beacon's packet stays alive, and the ledger stays right as long as the radio refuses no beacon, otherwise the transmitter is at worst wedged; every offer has been submitted, is the installed beacon, or shows in one of the three discard counters, told or current; good frames, told or current, are the packets reported as sent (32-bit arithmetic) |
| PacketTransmitter.Handler.ReadCounters | host-radio/Sources/Packet/Handler.cpp:375-380 | reports the transmit queue's state and its three discard counters, each under its own name, and clears the counters, whatever the state of the ledger |
| PacketTransmitter.Handler.ReadRadioCounters | host-radio/Sources/Radio/Task.cpp:451-454 | reports the radio's transmit statistics and clears them |
| PacketTransmitter.HeapAfterAccept | host-radio/Sources/Packet/Handler.cpp:299-323 | ownership across an acceptance: every outstanding buffer is alive with the right failure count, every non-sticky one is outstanding exactly once |
| PacketTransmitter.HeapAfterComplete | host-radio/Sources/Radio/Task.cpp:264-266 | ownership across a completion: freeing the finished non-sticky buffer leaves no queued pointer dangling |
| PacketTransmitter.Beacon.SetPayload | host-radio/Sources/BlazeNet/Beacon.cpp:103-129 | for sound and wedged transmitters: success exactly when the payload fits once the old packet is gone, and the whole heap afterwards; the first payload keeps the ledger; replacing one lowers the counter by one modulo 2^32; TxQueueEmpty is raised exactly if that or a refusal leaves nothing pending |
| PacketTransmitter.Beacon.Withdraw | host-radio/Sources/BlazeNet/Beacon.cpp:112-115 | counting off the old packet repairs a wedged transmitter with nothing queued and breaks the ledger in every other state; the buffer is gone even if still outstanding |
| PacketTransmitter.Beacon.EmitBeacon | host-radio/Sources/BlazeNet/Beacon.cpp:138-149 | panics exactly without a payload; keeps the ledger exactly when the queue is full, something is pending or the radio starts; the beacon's packet stays alive, so the call can be repeated for ever |
| MapSum.SumRemove | host-radio/Sources/Packet/Handler.cpp:333-342 | a byte total over live buffers loses exactly the removed buffer's share, whichever buffer it is |
| MapSum.SumPut | host-radio/Sources/Packet/Handler.cpp:220 | a byte total over live buffers gains exactly the new buffer's share |
| PacketReceiver.Receiver.HandleRxPacket | host-radio/Sources/Packet/Handler.cpp:48-122 | accepted exactly when the queue (255), the 8192-byte pool and the C heap have room; an accepted frame is the new last element with its signal report, to be acknowledged if and only if it has a full header with the request bit and is addressed to this node; a refused one raises exactly the counter of the first cause that applies and the overflow flag, and nothing else changes; PacketReceived is raised exactly if packets are waiting |
| PacketReceiver.Receiver.OnPacketReceived | host-radio/Sources/Radio/Task.cpp:177-209 | every handled frame counts as a good frame, taken in or not |
| PacketReceiver.Receiver.PopRxQueue | host-radio/Sources/Packet/Handler.h:211-217 | hands out the oldest packet, checks it out to the host and announces any rest |
| PacketReceiver.Receiver.DoRead | host-radio/Sources/HostIf/Handlers/ReadPacket.h:26-48 | writes signal report and payload of the oldest packet, cut to the request, touches nothing behind it, and keeps the buffer checked out |
| PacketReceiver.Receiver.PostRead | host-radio/Sources/HostIf/Handlers/ReadPacket.h:58-60 | releases exactly the checked-out buffer, once; panics if and only if an acknowledgement was wanted, the read succeeded and the acknowledgement could be queued |
| PacketReceiver.Receiver.QueueAck | host-radio/Sources/Radio/Task.cpp:414-438 | submits the acknowledgement at network-control priority; because the requirement is inverted the firmware panics if and only if it was queued, that is if there was room and something was pending or the radio starts |
| PacketReceiver.AckFor | host-radio/Sources/Radio/Task.cpp:421-431 | the acknowledgement, byte by byte: the response flag alone, the frame's tag, its destination as source and its source as destination; it does not itself ask for one |
| PacketReceiver.Receiver.ReadCounters | host-radio/Sources/Packet/Handler.cpp:367-373 | reports the receive queue's state and its three discard counters, each under its own name, and clears the counters, so that told plus current still equals the truth |
| PacketReceiver.Receiver.ReadRadioCounters | host-radio/Sources/Radio/Task.cpp:445-449 | the same for the radio's receive statistics |
| PacketReceiver.Receiver.Conservation | host-radio/Sources/Packet/Handler.cpp:48-122 | good frames (told and current) equal frames taken in plus the three discard totals (told and current), modulo 2^32; taken in equals handed out plus queued, in arrival order; live buffers are exactly those queued and the one checked out; bytes balance within 8192 |
| Irq.IrqManager.Update | host-radio/Sources/HostIf/IrqManager.cpp:48-77 | the line is asserted exactly while an unmasked interrupt is active |
| Irq.IrqManager.ReadStatus | host-radio/Sources/HostIf/Handlers/IrqStatus.h:29-33 | read-and-clear: reports exactly the unmasked active interrupts, clears only those, and the line goes inactive |
| HostIf.ToBits | host-radio/Sources/HostIf/Commands.h:267-297 | an interrupt set as a byte, bit by bit: command error in bit 0, packet received, packet transmitted, transmit queue empty in bit 3, nothing above; it survives the way back |
| HostIf.FromBits | host-radio/Sources/HostIf/Commands.h:129-167 | which interrupts a byte from the host names, bit by bit; the upper four bits do not matter |
| HostIf.Interface.IrqStatusRead | host-radio/Sources/HostIf/Handlers/IrqStatus.h:23-48 | the reply byte has exactly the bits of the interrupts that were active and unmasked, and exactly those are cleared |
| HostIf.Interface.StatusByte | host-radio/Sources/HostIf/Commands.h:102-121 | the status byte bit by bit against the state: last command good, radio active, packets waiting, 255 of them, receive overflow, nothing to transmit, a zero, transmit overflow |
| HostIf.Interface.IrqStatusWrite | host-radio/Sources/HostIf/Handlers/IrqStatus.h:55-83 | an interrupt is active afterwards if and only if it was and its bit in the payload is clear; an empty payload fails and clears none |
| HostIf.Interface.IrqConfigWrite | host-radio/Sources/HostIf/Handlers/IrqConfig.h:47-76 | an interrupt is unmasked afterwards if and only if its bit in the payload is set; an empty payload fails and changes nothing |
| HostIf.Interface.RadioConfigWrite | host-radio/Sources/HostIf/Handlers/RadioConfig.h:24-59 | success exactly with six bytes, a radio that tunes in and an address, from bytes 4 and 5, low byte first, that is neither 0 nor 0xFFFF; it then is the node's |
| HostIf.Interface.BeaconConfigWrite | host-radio/Sources/HostIf/Handlers/BeaconConfig.h:21-54 | timer, with its interval from bytes 1 and 2, and payload are updated as the payload says; the system stays sound exactly unless a payload is replaced outside the one state in which that is right, and then the ledger is broken with the counter one lower |
| HostIf.Interface.CountersRead | host-radio/Sources/HostIf/Handlers/GetCounters.h:23-39 | each of the seventeen statistics stands, as it was before, at its own place among the 68 reply bytes, low byte first; the counters are cleared as they are told; a request below 68 bytes fails and clears nothing |
| HostIf.CountersLayout | host-radio/Sources/HostIf/Commands.h:209-261 | where each statistic stands in the reply |
| HostIf.Interface.ReadHandler | host-radio/Sources/HostIf/CommandHandlers.cpp:26-105 | every read command: the transfer buffer carries what the command is to tell of the state it found, cut to the request; only a packet read takes a packet |
| HostIf.Interface.ReplyInBytes | host-radio/Sources/HostIf/CommandHandlers.cpp:26-105 | what each of the seven read commands has to tell, byte by byte and bit by bit against the state |
| HostIf.Interface.TransmitPacketWrite | host-radio/Sources/HostIf/Handlers/TransmitPacket.h:21-52 | success exactly when there is a priority byte and the payload can be queued or started; then the payload, in a new buffer, was accepted in the class of the low two priority bits |
| HostIf.Interface.DispatchCommand | host-radio/Sources/HostIf/Task.cpp:151-166 | the whole effect of every write command on error flag, active interrupts (exactly), mask, address, beacon and transmitter, with the exact condition for success; unsupported writes change nothing, failing ones raise CommandError; exactly a replaced beacon payload breaks the ledger |
| HostIf.Interface.DispatchCommandWithResponse | host-radio/Sources/HostIf/Task.cpp:176-209 | a served read arms one response that carries the command's reply cut to the request; an unsupported or failed one arms nothing and the interface stalls; a look at the front of an empty queue is undefined; the active interrupts afterwards in each case; the reply-length panic is unreachable |
| HostIf.Interface.DispatchCommandPostRead | host-radio/Sources/HostIf/Task.cpp:219-225 | after a packet read the checked-out buffer is released once and the queue is untouched; panics exactly when an acknowledgement is queued |
| HostIf.Interface.ProcessPayload | host-radio/Sources/HostIf/Task.cpp:77-88 | a payload has its command's full effect and the next header is armed; an empty one ends the loop; the ledger is broken exactly by a replaced beacon payload |
| HostIf.Interface.ProcessCommand | host-radio/Sources/HostIf/Task.cpp:108-140 | outcome of every header, including identifier 0x0B, which passes the check and indexes past the handler table; when the interface goes on, a write without payload has had its full effect, a write with payload is being received, a read is being answered, and an unknown command did nothing |
| HostIf.HeaderOutcome | host-radio/Sources/HostIf/CommandHandlers.cpp:26-105 | for every header byte, length and queue: stalled exactly for reads 0, 2, 7 and 8 and for statistics below 68 bytes; undefined exactly for identifier 0x0B and for looks at an empty queue |
| HostIf.Interface.Handle | host-radio/Sources/HostIf/Task.cpp:54-97 | one completed transfer: the outcome is exactly Outcome, panics and broken ledgers included; whenever the loop goes on exactly one transfer is armed, with the handler set for payloads and responses, the command's effect applied, the checked-out buffer released once and every other received packet kept |
| HostIf.Interface.NoLostWakeup | host-radio/Sources/HostIf/Handlers/IrqStatus.h:23-48 | with packets waiting PacketReceived is active if and only if it has not been acknowledged since the last receive attempt or read-out, and then, unmasked, it asserts the line |
| HostIf.Interface.OnRxFrame | host-radio/Sources/Packet/Handler.cpp:48-154 | the frame is taken in exactly if there is room and counted either way; after every receive attempt, whatever was acknowledged before, waiting packets with the interrupt unmasked assert the line |
| HostIf.Interface.Drive | host-radio/Sources/HostIf/Task.cpp:45-98 | any interleaving of transfers of all commands, received and damaged frames, radio reports and beacons keeps the whole system invariant while the loop goes on, and ends with no lost wakeup; the ledger is right as long as the radio refuses no beacon; it is never broken if at most one header announces a beacon payload; and the loop does go on whenever what happens is calm, a condition on the stimuli and on the packets waiting at the start |
| HostIf.Interface.Turn | host-radio/Sources/HostIf/Task.cpp:54-97 | one step of such a run: its outcome is exactly the verdict computed from the state before it |
| HostIf.Interface.OnBeaconTimer | host-radio/Sources/BlazeNet/Beacon.cpp:25-28 | an enabled beacon is submitted exactly if its queue has room, and keeps the system sound; TxQueueEmpty is raised exactly if nothing is pending then; panics exactly when enabled without a payload |
| HostIf.Interface.OnTxReport | host-radio/Sources/Radio/Task.cpp:132-156 | the report reaches the transmitter if a packet is on the air; neither the host side nor the beacon's packet is disturbed; TxQueueEmpty is raised exactly if nothing is pending then; the exact condition for a panic |
| Bits.MaskIsMod | host-radio/Sources/Fs/Flash.cpp:136 | masking with a power of two minus one is the remainder, so the driver's alignment arithmetic rounds as intended |
| Bits.AddressRoundTrip | host-radio/Sources/Fs/Flash.cpp:36-40 | the three transmitted bytes decode to exactly the low 24 bits of the address |
| NorChip.ProgramInsidePage | host-radio/Sources/Fs/Flash.cpp:196 | a page program that stays inside its page is a plain AND over its range, although the chip's page latch wraps |
| NorChip.WriteAfterErase | host-radio/Sources/Fs/Flash.cpp:117-151 | on erased cells a write stores exactly the data and disturbs nothing else |
| Flash.Driver.ExecCmd | host-radio/Sources/Fs/Flash.h:104 | a command takes effect whole on success, as some prefix of its bytes on failure |
| Flash.Driver.ExecCmdRead | host-radio/Sources/Fs/Flash.cpp:371-398 | reads never change the array; a status read shows the busy bit exactly while the chip is busy; a memory read returns the cells |
| Flash.Driver.ExecCmdWrite | host-radio/Sources/Fs/Flash.cpp:405-432 | command and payload reach the chip whole on success, as a prefix on failure |
| Flash.Driver.Read | host-radio/Sources/Fs/Flash.cpp:29-42 | on an idle chip a successful read inside the chip returns the array's bytes; reads never change the array; an I/O error is reported exactly if a transfer failed, and nothing else but an empty request is refused |
| Flash.Driver.WriteEnable | host-radio/Sources/Fs/Flash.cpp:47-57 | on an idle chip a success leaves the chip accepting programs and erases; the array is untouched |
| Flash.Driver.WaitForCompletion | host-radio/Sources/Fs/Flash.cpp:69-109 | returns NoError only with the chip idle; with the scheduler running and ticks below 2^32 it reads the status at most timeout/2 + 2 times; Timeout is returned only if the last read was busy and the deadline, compared as 32-bit ticks, had passed, which without wrap-around means that the whole timeout has; an I/O error exactly if a transfer failed |
| Flash.Driver.WritePage | host-radio/Sources/Fs/Flash.cpp:165-203 | exactly which inputs are rejected; otherwise a prefix of the data has been programmed, on success all of it or, by a busy chip only, nothing; an I/O error exactly if a transfer failed, Timeout only after the page timeout, with no more polls than that allows |
| Flash.Driver.Write | host-radio/Sources/Fs/Flash.cpp:117-151 | for every address and length inside the chip: success programs old AND data over the range and nothing else, any failure programs exactly a prefix; it fails only with an I/O error, exactly if a transfer failed, with Timeout, only after the page timeout, for an empty range, or for a piece the guard rejects, which pages of 256 bytes or more do not have; on a chip still busy at the start the first page's share may be missing as a whole, and nothing else can be |
| Flash.WriteStep | host-radio/Sources/Fs/Flash.cpp:133-147 | one page extends the programmed prefix and never wraps; only the first one can be ignored, by a busy chip |
| Flash.GuardAcceptsChunk | host-radio/Sources/Fs/Flash.cpp:177-181 | the page guard never rejects what the splitting loop produces when pages have at least 256 bytes |
| Flash.GuardIsExactOnlyFor256 | host-radio/Sources/Fs/Flash.cpp:177-181 | the guard tells wrapping programs from harmless ones if and only if pages are 256 bytes |
| Flash.BusyChipLosesWrites | host-radio/Sources/Fs/Flash.cpp:183-202 | a busy chip, the two frames of a page program, and when it gets ready: before the write enable, the page is programmed; right after it, every frame is delivered and the chip then reads idle, but nothing is programmed |
| Flash.ProgramEffect | host-radio/Sources/Fs/Flash.cpp:190-196 | what any prefix of a page program frame does to the chip: everything it carries if it got past the address on an idle, write-enabled chip, nothing otherwise |
| Flash.ProgramDelivered | host-radio/Sources/Fs/Flash.cpp:190-196 | a program frame on the bus, with the chip getting ready before it or not and the transfer failing or not: a prefix of the page or nothing, all of it if whole and enabled |
| Flash.EraseEffect | host-radio/Sources/Fs/Flash.h:99-104 | what any prefix of an erase frame does to the chip: the whole unit if complete on an idle, write-enabled chip, nothing otherwise |
| Flash.Driver.EraseWithAddress | host-radio/Sources/Fs/Flash.h:88-111 | one unit is erased completely or not at all, completely on success unless the chip was still busy; an I/O error exactly if a transfer failed, Timeout only after the given time |
| Flash.Driver.EraseSector | host-radio/Sources/Fs/Flash.cpp:268-281 | rejects exactly the unaligned addresses; otherwise one sector, all or nothing |
| Flash.Driver.EraseBlock | host-radio/Sources/Fs/Flash.cpp:290-303 | rejects exactly the unaligned addresses; otherwise one block, all or nothing |
| Flash.Driver.Erase | host-radio/Sources/Fs/Flash.cpp:212-259 | exactly which arguments are rejected; on success exactly the range reads 0xFF and the commands are the minimal tiling, except that a chip still busy at the start may have ignored the first unit as a whole; on failure, only by a failed transfer or after a sector's or block's timeout, exactly what some prefix of that tiling covers is erased; misalignment is never reported by a sub-call |
| Flash.Driver.UnitStep | host-radio/Sources/Fs/Flash.cpp:237-254 | one more unit of the tiling extends the erased prefix on success, unless it is the first and a busy chip ignored it; a failure leaves the units so far, with or without this one |
| Flash.Driver.ErasedPrefixStaysInside | host-radio/Sources/Fs/Flash.cpp:232-255 | no prefix of the tiling reaches beyond the range, so nothing outside is ever erased |
| EraseTiling.GreedyExtent | host-radio/Sources/Fs/Flash.cpp:232-255 | the units together cover exactly the length asked for, any first few no more |
| EraseTiling.GreedyIsTiling | host-radio/Sources/Fs/Flash.cpp:232-255 | the driver's units cover the range exactly, each aligned to its own size |
| EraseTiling.TilingErasesOnce | host-radio/Sources/Fs/Flash.cpp:232-255 | an exact tiling erases every byte of the range once and no other byte |
| EraseTiling.SectorFirstIsNoBetter | host-radio/Sources/Fs/Flash.cpp:236 | spending a sector where a block would fit never saves a command |
| EraseTiling.GreedyIsMinimal | host-radio/Sources/Fs/Flash.cpp:232-255 | no exact tiling of the range by aligned sectors and blocks uses fewer commands |
| Flash.Driver.EraseChip | host-radio/Sources/Fs/Flash.cpp:311-335 | all or nothing, and all on success from idle; it fails only by a failed transfer or after the timeout |
| Flash.Driver.Reset | host-radio/Sources/Fs/Flash.cpp:343-362 | drops the write-enable latch, never touches the array |
| Flash.EraseWriteRead | host-radio/Sources/Fs/Flash.cpp:29-259 | erase, write, read back: if all calls succeed the data comes back, the rest of the range is blank; in every case the flash outside the range is untouched, and an I/O error means a failed transfer, Timeout an operation that took too long |
| Superblock.ParseInvertsBytes | host-radio/Sources/Fs/Init.h:15-76 | the superblock survives being written out and read back |
| Superblock.FreshSuperblockMounts | host-radio/Sources/Fs/Init.cpp:178-214 | for every chip and every checksum function, a formatted superblock passes the emptiness, length, magic, checksum and type checks and mounts the whole chip behind its sector |
| Superblock.InterruptedFormat | host-radio/Sources/Fs/Init.cpp:155-202 | what a boot makes of the first k bytes of a superblock: formatted again if and only if k is zero; for one to three bytes it panics over the magic number; from four on length and magic pass and the checksum is the complaint exactly when it differs; from 20 on the right filesystem is mounted or none; complete, it is mounted |
| Superblock.TornAfterWrite | host-radio/Sources/Fs/Init.cpp:72-77 | a write of the superblock on erased flash, completed or not, leaves exactly some first part of it |
| Superblock.FileSystem.FormatNor | host-radio/Sources/Fs/Init.cpp:60-84 | from an idle chip a successful format leaves the whole superblock whatever the library writes in its region, and a failed one the old bytes or some first part of the superblock; it fails only if the library says so, a transfer failed, or the chip erase or the page program took too long |
| Superblock.FileSystem.HalAccess | host-radio/Sources/Fs/NorFs.cpp:160-177 | no library write or erase inside its region, successful or not, changes the superblock |
| Superblock.FileSystem.RunLibrary | host-radio/Sources/Fs/NorFs.cpp:160-177 | nor does any sequence of them |
| Superblock.FileSystem.IsErased | host-radio/Sources/Fs/Init.cpp:155-162 | the scan says empty exactly when every byte is 0xFF |
| Superblock.FileSystem.Init | host-radio/Sources/Fs/Init.cpp:105-218 | a boot from idle comes to the one outcome the stored bytes explain, or to a device error, and that only if a transfer failed, the library said no, or a format of a blank chip took too long; a blank chip ends up with the superblock or some first part of it, and other bytes are left alone |
| Superblock.FileSystem.Validate | host-radio/Sources/Fs/Init.cpp:168-214 | on the bytes themselves: mounted if and only if length, magic 5A 41 4C 42, checksum and type are right, with the region the superblock names; otherwise the panic names the first check that fails, in that order |
| Superblock.DecideExactly | host-radio/Sources/Fs/Init.cpp:155-214 | for every 28 bytes: the decision is the one outcome that they explain, check by check, a device error apart |
| Superblock.FreshInBytes | host-radio/Sources/Fs/Init.cpp:34-53 | what a format writes, byte by byte: magic, version, length, type, the region behind the first sector, the checksum of all that |
| Superblock.Lifetime | host-radio/Sources/Fs/Init.cpp:105-218 | from the factory on, whatever fails: the first boots find the chip blank and format it or fail; the last of them leaves k bytes of the superblock, all of it if it reports success; every later boot, after arbitrary library traffic, decides on those same bytes or reports an error, and there are no more such errors than failed transfers and refusals of the library; with none of those, once a boot has formatted the chip every later one mounts the same filesystem, and the first one does format it unless that takes too long |
| AnimScript.TerminatesExactly | host-radio/Sources/Hw/Indicators.cpp:162-211 | the interpreter stops iff decoding does not meet Restart both from its offset and from the beginning, and then within two commands per script byte plus two |
| AnimScript.TimelineTick | host-radio/Sources/Hw/Indicators.cpp:64-105 | from one tick to the next a script played alone stands still or is resumed in the tick it asks for |
| AnimScript.SpacedIsOnTime | host-radio/Sources/Hw/Indicators.cpp:95-97 | a script without two zero delays in a row is never late, from any point on |
| AnimScript.KeepsTimeExactly | host-radio/Sources/Hw/Indicators.cpp:95-144 | a playable script keeps time, a condition on the script alone, if and only if played alone it is never late |
| AnimScript.TwoZeroDelaysStick | host-radio/Sources/Hw/Indicators.cpp:95-144 | the failing input: after two zero delays in a row the tick on record has passed, and alone the channel stands still for ever |
| AnimScript.KeepingTimeIsPlayable | host-radio/Sources/Hw/Indicators.cpp:162-211 | a script that keeps time never diverges or overruns |
| AnimScript.BuiltInsKeepTime | host-radio/Sources/Hw/Indicators.h:178-214 | the five built-in scripts keep time for ever |
| AnimScript.BlinkShows | host-radio/Sources/Hw/Indicators.h:199-214 | an attention pattern of half-period d, at any time: on, off, on, ... exactly d ticks apart from its installation |
| AnimScript.OneBlinkShows | host-radio/Sources/Hw/Indicators.h:184-197 | the activity blinks at any time: on at once, off 125 ticks or 7 ticks later, idle then or 7 ticks after that |
| Indicators.Engine.UpdateChannel | host-radio/Sources/Hw/Indicators.cpp:162-211 | terminates on every script that Play says ends, with exactly its pin writes, and says whether it halted or where and how long it waits; the delay output is left alone when the script ends |
| Indicators.Engine.UpdateTimerPeriod | host-radio/Sources/Hw/Indicators.cpp:115-151 | for every state of the channels, ticks on record in the future, present or past: the timer is re-armed for exactly the first wake-up, a present one counting as the next tick and a past one as a turn of the 32-bit counter away, and left alone if nothing waits |
| Indicators.Engine.TimerFired | host-radio/Sources/Hw/Indicators.cpp:64-105 | exactly the channels whose tick on record has come are resumed, whatever the uninitialised delay variable holds |
| Indicators.TickAlone | host-radio/Sources/Hw/Indicators.cpp:64-151 | a channel that is not late is resumed among others exactly when it would be alone |
| Indicators.LateWaitsForOthers | host-radio/Sources/Hw/Indicators.cpp:82-97 | a late channel is resumed exactly in the ticks another channel asks for |
| Indicators.HungStaysHung | host-radio/Sources/Hw/Indicators.cpp:229-252 | no channel that is not idle takes a script unless at once; after a first delay of zero nothing at all happens on it until then |
| Indicators.OthersDoNotMatter | host-radio/Sources/Hw/Indicators.cpp:64-258 | over every run a channel that by itself is never late shows among the others exactly what it would show by itself |
| Indicators.SpacedScriptsArePunctual | host-radio/Sources/Hw/Indicators.cpp:64-258 | scripts without two zero delays in a row satisfy that in every run |
| Indicators.AttentionBlinks | host-radio/Sources/Hw/Indicators.h:199-214 | the two attention patterns, on any pin: the writes among three channels are on, off, on, ... every 125 and every 250 ticks |
| Indicators.PunctualExactly | host-radio/Sources/Hw/Indicators.cpp:64-258 | for a playable script left playing, never being late is equivalent to keeping time |
| Indicators.OthersWakeTheLate | host-radio/Sources/Hw/Indicators.cpp:64-105 | the interference: the script with two zero delays in a row never lights its pin alone, and does in the tick a second channel asks for |
| Indicators.Engine.Advance | host-radio/Sources/Hw/Indicators.cpp:64-105 | one tick, with a due timer served first, does what the three channels without a timer do |
| Indicators.Engine.SetChannelScript | host-radio/Sources/Hw/Indicators.cpp:223-258 | a deferred installation on a channel that is not idle changes nothing at all; otherwise the channel holds the new script and its pin has got exactly the writes up to the first wait; the other channels' records and pins are untouched and the timer stays right, for every playable script, zero delays included |
| Indicators.Drive | host-radio/Sources/Hw/Indicators.cpp:64-258 | over any run of ticks and installations of scripts that neither diverge nor overrun, every pin carries the writes of the three channels without a timer, and on every channel that by itself is never late those its own scripts produce when each is played alone: one shared timer does the work of three |

## Left out

- Preemption inside calls: every call is one atomic step, as the handler's own comment on thread safety asks; the
  race between arming a payload transfer and clearing its byte count (HostIf/Task.cpp:131-132) is not modelled.
- RAIL, SPIDRV, FreeRTOS and GPIO internals: a start succeeds or fails, a transfer completes, a tick passes. One report
  per started transmission is assumed; a busy report with nothing on the air (a panic) is not an event here.
- SPIFFS: its accesses are arbitrary sequences inside [fsStart, capacity) with an arbitrary verdict, formatting and mounting; that the library keeps to its
  region is assumed.
- The CRC-32 algorithm: the superblock results hold for every checksum function.
- JEDEC identification, low power, security registers and fast reads of the flash.
- Flash accesses beyond the end of the chip: the driver does not check for them; the model's `Write` and `Erase` require a range inside it.
- Superblock.Lifetime: the chip is taken to be idle at each boot, because a chip still busy from before a reset answers
  reads with noise and may ignore the boot's commands.
- Superblock.FileSystem.Init: on a chip that is not idle nothing is promised about the outcome, for the same reason.
- Flash.Driver.WaitForCompletion: without a running scheduler the number of polls is bounded by the chip's busy time only, as in the firmware, where the
  timeout does not work then.
- TxScheduler.AttemptsAreBounded: counts transmissions that began; requests the radio refused are counted in PacketTransmitter.Handler.Guarantees.
- Indicators.Engine.SetChannelScript: requires that no run of the script the channel can reach diverges or lacks a delay's
  operand; those are covered by AnimScript.TerminatesExactly and the outcomes of Play, not by the engine.
- Indicators.Drive: ticks stay below 2^32 - 255; wrap-around is ignored by the firmware too.
- The recovery of lost interrupts (disabled in the firmware), the communications watchdog and the toggling mode of the interrupt line.
- The contents of the GetInfo reply are a constant of the model, and whether the radio is active a parameter.
- Re-tuning the radio discards what is in its FIFOs; that a packet on the air then never gets a report is not modelled.
- The period of the beacon timer: beacons come at any time while enabled.
- `fsEnd` is stored and checked for nothing, as in the firmware.
- The structure sizes are those of the target ABI: 4 bytes of transmit header, 6 of receive header, 6 of MAC header.

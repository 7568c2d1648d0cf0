# Verified model of the UmTRX driver and firmware

This project models the parts of the UmTRX host driver (C++) and of the ZPU
firmware (C) whose correctness rests on state kept over many calls, on wrapped
counters, or on the behaviour of a device behind a bus. It is written for
Dafny 4.11; `dafny verify dfyconfig.toml` checks the project.

| file | what it models |
|---|---|
| `RecvTypes`, `RecvAlign`, `RecvState`, `RecvHandler`, `RecvTheorems` | the multi-channel receive handler: a ring of four slots, time alignment, fragments, queued errors, flushing |
| `FifoCtrl` | the command FIFO: a window of commands under 16-bit sequence numbers, and SPI transactions with a cached control word |
| `FlowControl` | transmit credit as a state machine of sender, acknowledgement thread and device |
| `SendHandler` | fragmentation and all-or-nothing commits of the send handler |
| `Flash` | the SPI flash driver over a device that wraps inside pages, can only clear bits and drops commands while busy |
| `Gpsdo` | the low-pass filter and PID of the clock-disciplining loop in 32-bit integers |
| `I2cAsync` | the interrupt-driven I2C transfer machine |
| `Mtu` | the bisection for the packet size |
| `Lms6002d`, `Umsel2` | PLL divider computation, register packing and the capacitor scan, over exact reals |
| `Checksum` | the Internet checksum |
| `Basics`, `Arith`, `RealArith` | shared types and arithmetic helpers |

Conventions. Code that updates state in place is a class whose methods are tied
to functions of the old state; the properties are lemmas about those functions
and about the class invariants. The transport, the bus and the device are part
of the model where a property needs them: oracles (functions or sequences fixed
at construction) say what each call into them yields, so that a statement about
a class holds for every behaviour of its environment. Exceptions are values of a
`Result` or `Option` type. Times and frequencies are exact reals. Signed 32-bit
arithmetic of the firmware is modelled as wrapping in two's complement. `hide`
statements in proofs keep definitions out of the solver's sight; they add no
assumption.

Environment assumptions, each visible as a precondition or in the oracle's type:

- receive: every payload is a whole number of items, one output buffer per channel; unequal payloads in one set are allowed and their effect is proved exactly
- command FIFO: commands are executed and replies received in order, and replies are genuine, but any command and any reply may be lost
- transmit credit: acknowledged counts do not go back and never exceed what the device drained
- packet size search: the smallest packet is a multiple of 4 bytes
- interrupts: handlers run only where the main loop polls for them (zpu/lib/pic.c:51-54, zpu/apps/txrx_uhd.c:398), never inside a driver call; `StartIsAtomicIff` says what the I2C start would need were they preemptive
- flash: address bits above the size of the part are ignored by it
- flash: a command either takes effect at once and leaves the device busy, or is dropped

## Findings

Where a property one would expect does not hold of the code, the model keeps the
code, shows an input, and proves exactly when the property holds.

- An inline message with context code zero makes the alignment call report no error although nothing was aligned; nothing else does (`SilentReport`, `SilentMessage`).
- A channel whose payload is shorter than that of the packet that led the set is read past its end, and one whose payload is longer loses its tail; its stream is its payloads exactly when the sizes agree (`StreamReadsPast`, `StreamIsPayloads`, and the run `UnequalPayloads`).
- The time of a gap report counts the previous payload in whole words, so it is too late by the padding exactly when that is no smaller than an item (`GapIsPayload`).
- The cached SPI control word can disagree with the device: when an acknowledgement comes too late for the word to be recorded (`CutOff`), and when, with a window, the word itself is lost (`LostWord`). `TransactSpi` states for every state and environment exactly when they agree afterwards and when a transfer runs under the wrong word.
- Metadata cached by an empty start of burst: its time is lost after the first fragment, and its end-of-burst flag overrides that of a one-packet call, in exactly the cases of `CachedTimes` and `CachedEndOfBurst` (runs: `CachedTimeLost`, `CachedEndLost`). They are used up even by a call that sends nothing; they reach the wire exactly when all requests for its first packet are met (`Send`, run: `CachedDropped`).
- The flash range check is void when address plus length overflows 32 bits: `Program`, `AsyncErase` and `Erase` say what such a range does, `PlainIff` that a write is plain exactly without overflow, `OverflowingProgram` and `OverflowingErase` show inputs. A synchronous erase up to the topmost sector of the address space does not end (`EraseNeverEnds`); a synchronous erase that runs past the end of the memory erases sector zero as well (`StrayEraseIff`).
- The DAC word is never cut exactly for initial values 2047 and 2048 (`DacFitsIff`, with the extremes reached in `DacExtremes`). The error sum has no anti-windup: `CorrectionIdealIff` says exactly when the correction is right, and `Windup` is a run in which it flips sign.
- An empty I2C write is accepted and runs out of its buffer (`EmptyWriteRunsOn`, `EmptyWriteLeavesBuffer`).
- The packet size search never ends for an upper limit that leaves 1 modulo 4 when no probe fails (`NeverEnds`), that is, on a path with a limit, exactly when that path carries the multiple of 4 below (`EndsOnPathIff`); and its result can exceed the upper limit when the other limit is larger (`ExceedsIff`, run: `Exceeding`).
- A synthesizer reference below 1 MHz makes the modulus zero and leaves no result; this is the only way to have none (`TuneSynth`).
- An ICMP echo of odd length gets a correct checksum exactly when its last byte is zero (`OddByte`).

## Model

| member | source | states |
|---|---|---|
| RecvHandler.Handler.constructor | host/cores/super_recv_packet_handler.hpp:81-102 | A new handler satisfies the invariant with nothing read, aligned or delivered and no error queued; the alignment threshold is scaled by the number of channels. |
| RecvHandler.Handler.GetSinglePacket | host/cores/super_recv_packet_handler.hpp:355-426 | The verdict on an arrival is a function of what the wire carried: a data packet is out of sequence exactly when its count is not one past that of the last data packet on this wire, in 4 or 12 bits; messages, timeouts and throws leave the counter alone. The count expected next is one past the packet's own, modulo 4096 under a link layer and 16 without; a packet with the right count is late exactly when it has a time and that lies before the previous one. |
| RecvAlign.ReceivedKeepsProgress | host/cores/super_recv_packet_handler.hpp:459-482 | A newer, equal, older or stepped-back packet keeps the invariant of a set under assembly: every channel ticked off holds its latest packet, unused by earlier sets, stamped with the alignment time, and one of them gave the byte count. |
| RecvAlign.ReceivedKeepsFrontier | host/cores/super_recv_packet_handler.hpp:459-482 | Every time before the alignment time is settled: delivered as a set, or skipped for good by some channel. |
| RecvAlign.StartsFrontier | host/cores/super_recv_packet_handler.hpp:463-471 | The first packet of a set settles every earlier time and lies after all sets before. |
| RecvAlign.CompletionKeepsFrontier | host/cores/super_recv_packet_handler.hpp:505-597 | Completing a set moves that frontier to the time of the set. |
| RecvAlign.CommonTimesAreAligned | host/cores/super_recv_packet_handler.hpp:490-599 | On channels whose times move forward, a timestamp received on all of them has been delivered as a set or is being assembled. |
| RecvState.NoStepBack | host/cores/super_recv_packet_handler.hpp:419-422 | While channel times move forward the out-of-order check never fires, whatever the previous slot holds. |
| RecvState.ReceivedKeepsSlots | host/cores/super_recv_packet_handler.hpp:528-542 | Taking a data packet keeps the whole ring invariant: current slot, progress, empty spare, delivered stream and frontier. |
| RecvState.OverwriteKeepsSlots | host/cores/super_recv_packet_handler.hpp:361-364 | A message, timeout or throw overwrites only the record of an awaited channel and loses no progress. |
| RecvState.ReportKeepsSlots | host/cores/super_recv_packet_handler.hpp:523-585 | Swapping the progress into the next slot leaves the current one empty but for the report and keeps the ring invariant. |
| RecvState.CompletionKeepsSlots | host/cores/super_recv_packet_handler.hpp:590-597 | A fully ticked-off slot becomes the current one and the recorded set consists of wire packets with one timestamp. |
| RecvState.CompletedSetOk | host/cores/super_recv_packet_handler.hpp:505-597 | Once no channel is awaited, the slot holds one unused wire packet per channel, all with the alignment time. |
| RecvState.CompletionConserves | host/cores/super_recv_packet_handler.hpp:590-597 | Completing a set keeps delivered items plus pending ones equal to the stream. |
| RecvState.CopiedHandsOut | host/cores/super_recv_packet_handler.hpp:627-650 | After a partial copy the slot still hands out the same set, from the new offset. |
| RecvState.CopyConserves | host/cores/super_recv_packet_handler.hpp:627-650 | A copy moves items from pending to delivered and loses or repeats none. |
| RecvState.CopyKeepsSlots | host/cores/super_recv_packet_handler.hpp:627-650 | A copy keeps the whole ring invariant. |
| RecvState.ReadPosition | host/cores/super_recv_packet_handler.hpp:658-683 | Every channel's read position is the fragment offset, and no buffer is released while items are left. |
| RecvHandler.Handler.AlignmentCheck | host/cores/super_recv_packet_handler.hpp:459-482 | The in-place update of the current slot is the value-level update the invariants are proved for. |
| RecvHandler.ChannelStep | host/cores/super_recv_packet_handler.hpp:409-417 | Each arrival keeps history, position and expected count of a channel consistent with its wire. |
| RecvHandler.Handler.StorePacket | host/cores/super_recv_packet_handler.hpp:528-542 | The four kinds of arrival update the current slot as the ring lemmas assume. |
| RecvHandler.ArrivalKeepsRing | host/cores/super_recv_packet_handler.hpp:508-573 | Any arrival on an awaited channel keeps the ring assembling. |
| RecvHandler.Handler.NextSlot | host/cores/super_recv_packet_handler.hpp:492-498 | The saved progress becomes the current slot, and the slot handed out last stays available as the previous one. |
| RecvHandler.EnterAssembling | host/cores/super_recv_packet_handler.hpp:492-498 | From rest with an exhausted slot, stepping the ring gives an assembling ring. |
| RecvHandler.Handler.Attempt | host/cores/super_recv_packet_handler.hpp:507-573 | A report is made exactly when the arrival is not a data packet in sequence, and says what the arrival was; a packet that steps back in time restarts the set silently. |
| RecvHandler.Handler.AttemptFirst | host/cores/super_recv_packet_handler.hpp:505-573 | In lockstep the first awaited channel is the next in order and its packet joins the set. |
| RecvHandler.StepOn | host/cores/super_recv_packet_handler.hpp:459-508 | One more packet of the lockstep continues the set under assembly. |
| RecvHandler.Handler.Iterate | host/cores/super_recv_packet_handler.hpp:505-587 | One iteration keeps the count of packets, ends with the report of its arrival or of the reached limit, and never ends a lockstep early. |
| RecvHandler.PassOrStop | host/cores/super_recv_packet_handler.hpp:575-586 | The iteration counter turns into an alignment failure exactly after threshold + 2 clean packets. |
| RecvHandler.ReportRestsRing | host/cores/super_recv_packet_handler.hpp:523-585 | A swap with report brings the ring to rest. |
| RecvHandler.Handler.TakePacket | host/cores/super_recv_packet_handler.hpp:508-573 | One attempt reads exactly one arrival of an awaited channel, keeps the assembling invariant, and touches neither the slot before nor the one behind. |
| RecvHandler.Handler.SaveProgress | host/cores/super_recv_packet_handler.hpp:523-585 | On each early return the current slot is empty with only the report, the next slot is the old progress unchanged, and the ring is at rest again. |
| RecvHandler.Handler.Align | host/cores/super_recv_packet_handler.hpp:504-588 | The loop ends with all channels ticked off after at most threshold + 1 packets, or with the report of one arrival after at most threshold + 2; every other arrival it read was a data packet in sequence, so no error is swallowed. From a fresh slot, channels whose next packets are in sequence with one timestamp are aligned with exactly one packet each. |
| RecvHandler.Handler.GetAlignedBuffs | host/cores/super_recv_packet_handler.hpp:490-599 | Either one more set is appended and the current slot hands it out from offset zero, or no set is and the current slot is empty but for the report of an arrival; channels in lockstep yield exactly the set of their next packets, with the item count of channel zero; a call without error code shrinks the backlog. |
| RecvHandler.Handler.Complete | host/cores/super_recv_packet_handler.hpp:590-597 | The set recorded is that of the slot, ready from offset zero, and the next slot still awaits channels. |
| RecvHandler.CompletionRestsRing | host/cores/super_recv_packet_handler.hpp:590-597 | Completion brings the ring to rest with the new set current. |
| RecvHandler.LockstepSet | host/cores/super_recv_packet_handler.hpp:590-597 | Once all channels are in, the completed set is that of their next packets. |
| RecvHandler.Handler.ConvertChannel | host/cores/super_recv_packet_handler.hpp:658-683 | The channel's output cells get the next items of its buffer, all other cells keep their contents, the read position advances, and the buffer is released exactly when it is used up. |
| RecvHandler.Handler.ConvertAll | host/cores/super_recv_packet_handler.hpp:640-641 | Every channel's row gets its own next items, and nothing else is written. |
| RecvHandler.CopyRestsRing | host/cores/super_recv_packet_handler.hpp:627-650 | A copy of no more than is left keeps the ring at rest, all channels at the same offset. |
| RecvHandler.TakenFragment | host/cores/super_recv_packet_handler.hpp:621-650 | The metadata of a copy describe the stretch of the set it takes: offset, interpolated time, more-fragments flag and the flags of channel zero; something is taken whenever something is left. |
| RecvHandler.Handler.CopyOut | host/cores/super_recv_packet_handler.hpp:621-650 | A call takes the most items that fit on every channel alike, appends exactly them to the delivered streams, and interpolates time and offset. |
| RecvHandler.Handler.RecvOnePacket | host/cores/super_recv_packet_handler.hpp:607-651 | What reaches the caller is the next stretch of the stream. Either the metadata describe it as a stretch of the set under way, or of a new one, by place, time and the burst flags of channel zero; or there is none and they are the report of the very arrival the call stopped on. Without an error code nothing read was an error; a set under way is continued without reading the wires. |
| RecvHandler.StretchOfSet | host/cores/super_recv_packet_handler.hpp:621-650 | Taking from a slot that hands out a set yields a stretch of that set, the most that fits, under metadata that describe it. |
| RecvHandler.ReportHandedOut | host/cores/super_recv_packet_handler.hpp:621-648 | A slot with only a report hands the report out unchanged. |
| RecvHandler.SilentIsQuiet | host/cores/super_recv_packet_handler.hpp:544-555 | A call that stops without an error code has met a message with context code zero and passed over data packets in sequence only. |
| RecvHandler.Handler.RecvBehind | host/cores/super_recv_packet_handler.hpp:238-246 | A packet read behind the first ones continues the row contiguously; an error is the report of the arrival it stopped on, and without one nothing read was an error. |
| RecvHandler.Handler.FillRest | host/cores/super_recv_packet_handler.hpp:238-255 | The loop over packets terminates, fills the buffer contiguously behind what was there, and ends full with no error on the way, or with the report of the first error met queued. |
| RecvHandler.Handler.Recv | host/cores/super_recv_packet_handler.hpp:208-256 | For any buffer size the samples written are the next items of every channel's stream and other cells are untouched. An error returned is the report of the arrival the call stopped on; one met after samples is queued as that report, everything read before it being free of errors, and handed over once, alone, by the next call, except a timeout, which is dropped as the code intends. The metadata describe the first stretch, or are the report of the first arrival. |
| RecvHandler.Handler.DrainChannel | host/cores/super_recv_packet_handler.hpp:432-448 | A channel is read up to and including its first timeout, exceptions included, and no further. |
| RecvHandler.ThreeResets | host/cores/super_recv_packet_handler.hpp:450-452 | Resetting previous, current and next slot is enough, since the fourth is always empty at rest. |
| RecvHandler.Handler.FlushAll | host/cores/super_recv_packet_handler.hpp:428-453 | Every channel is drained to its first timeout, all four slots are empty, and the streams start anew. |
| RecvTheorems.AlignmentIsIntersection | host/cores/super_recv_packet_handler.hpp:484-599 | In every reachable state with forward-moving channel times, the sets delivered since the last flush are exactly the timestamps received on all channels, in increasing order, but for the one under assembly. |
| RecvTheorems.SetsComeFromTheWires | host/cores/super_recv_packet_handler.hpp:484-599 | In every reachable state each member of each set is a data packet its wire carried, all with one timestamp, each later on its wire than in the set before, and the set has as many items as one of them. |
| RecvTheorems.DeliveredIsStream | host/cores/super_recv_packet_handler.hpp:607-683 | In every reachable state the items handed out, followed by what the current slot holds, are the items of the aligned sets in order, without gap or repeat. |
| RecvTheorems.StreamIsPayloads | host/cores/super_recv_packet_handler.hpp:459-471 | The stream of a channel equals its payloads exactly when their sizes agree with the packets that led the sets; a longer payload loses its tail. |
| RecvTheorems.StreamReadsPast | host/cores/super_recv_packet_handler.hpp:627-683 | The stream holds memory behind a payload exactly when some payload is shorter than the leading one, and otherwise is the heads of the payloads in order. |
| RecvTheorems.HeadsDropTails | host/cores/super_recv_packet_handler.hpp:627-683 | The heads are the whole payloads exactly when none is longer than the leading one. |
| RecvTheorems.UnequalPayloads | host/cores/super_recv_packet_handler.hpp:459-599 | A run on two channels with equal times and any two payloads: channel zero leads, and channel one reads past its end exactly when it is shorter and loses its tail when it is longer. |
| RecvTheorems.SilentReport | host/cores/super_recv_packet_handler.hpp:544-555 | A report carries no error code exactly when it comes from a message with context code zero. |
| RecvTheorems.SilentMessage | host/cores/super_recv_packet_handler.hpp:544-555 | A concrete run in which the alignment call ends without error code and without a set. |
| RecvTheorems.CleanIffNextCount | host/cores/super_recv_packet_handler.hpp:411-416 | A data packet passes the sequence check exactly when its count is zero, as the first one, or one past that of the data packet before it, modulo 4096 or 16 by the link layer of that one. |
| RecvTheorems.CleanIffNumbered | host/cores/super_recv_packet_handler.hpp:411-416 | With everything before in sequence a data packet passes exactly when it carries its own number among the data packets, modulo 16 or 4096. |
| RecvTheorems.CleanIffInSequence | host/cores/super_recv_packet_handler.hpp:411-416 | A wire of one link type passes the check throughout exactly when its data packets are numbered from zero, modulo 16 or 4096, whatever messages, timeouts and malformed packets lie between. |
| RecvTheorems.GapIsPayload | host/cores/super_recv_packet_handler.hpp:566-567 | The time of a gap report lies the previous payload, rounded up to whole words, after that packet: exactly its items if and only if the padding is smaller than an item. |
| RecvTheorems.ReportCodes | host/cores/super_recv_packet_handler.hpp:520-585 | Every kind of arrival is reported under its own code of the receive API, with a time only for messages and gaps, and out of sequence exactly for gaps. |
| RecvTheorems.LastData | host/cores/super_recv_packet_handler.hpp:413 | Before a position with n data packets in front of it lies the one with n - 1. |
| FifoCtrl.PackRoundTrip | host/umtrx_fifo_ctrl.cpp:199-201 | The device reads back register, command kind and sequence number from the command word. |
| FifoCtrl.WrapLessIffDistance | host/umtrx_fifo_ctrl.cpp:207-211 | The comparison holds exactly when the second number is 1 to 32767 ahead modulo 65536. |
| FifoCtrl.WrapLessOrders | host/umtrx_fifo_ctrl.cpp:207-211 | It orders unbounded positions correctly while they are less than half the number space apart. |
| FifoCtrl.CtrlWordInjective | host/umtrx_fifo_ctrl.cpp:120-125 | Two control words are equal exactly when slave, length and both edges are. |
| FifoCtrl.CtrlWordFields | host/umtrx_fifo_ctrl.cpp:120-125 | The SPI core finds the slaves in the low 24 bits of the control word, the length in the six above, and in the top two bits whether input is sampled on the rising and output changed on the falling edge. |
| FifoCtrl.DataOutHoldsLowBits | host/umtrx_fifo_ctrl.cpp:127-128 | The data word carries the low bits of the data in its upper bits and zeros below. |
| FifoCtrl.DeviceCtrlStep | host/umtrx_fifo_ctrl.cpp:131-135 | Only writes of the control register that arrive change the word the device works under. |
| FifoCtrl.TransfersStep | host/umtrx_fifo_ctrl.cpp:138-139 | One more command keeps all executed transfers right exactly when it is not a data command that arrives while the device holds another word. |
| FifoCtrl.FifoCtrl.constructor | host/umtrx_fifo_ctrl.cpp:47-56 | The window is clipped to 15, nothing is outstanding, no call has failed and no reply of an earlier session is left to be received; the cached word is still unset. |
| FifoCtrl.Make | host/umtrx_fifo_ctrl.cpp:47-60 | Construction succeeds exactly when a buffer is at hand and the SPI divider write is acknowledged in time; then the cache is void and the device untouched but for the divider. |
| FifoCtrl.FifoCtrl.SendPkt | host/umtrx_fifo_ctrl.cpp:170-205 | Without a send buffer nothing changes; otherwise one command is appended under the next sequence number. |
| FifoCtrl.FifoCtrl.WaitForAck | host/umtrx_fifo_ctrl.cpp:213-231 | Knowing only 16 bits of its goal the wait times out exactly when the replies at hand end before the goal, and otherwise returns the data word of the reply to that very command, or zero; a reply seen shows that its command arrived. |
| FifoCtrl.FifoCtrl.Receive | host/umtrx_fifo_ctrl.cpp:216-226 | A reply is taken exactly when one is in time, and the number it carries stands for its position among all commands. |
| FifoCtrl.FifoCtrl.Exchange | host/umtrx_fifo_ctrl.cpp:72-86 | The call ends with no send buffer or with no acknowledgement exactly when the oracles say so beforehand; after success at most the slack is outstanding, and with none the value answers this command, which has arrived; each timeout adds at most one outstanding command. |
| FifoCtrl.FifoCtrl.Command | host/umtrx_fifo_ctrl.cpp:72-86 | What one command does to the device's control word and to the transfers so far, depending on whether it arrives. |
| FifoCtrl.FifoCtrl.Poke32 | host/umtrx_fifo_ctrl.cpp:72-78 | One write is sent, of register (address - 0x7000) / 4 in the settings range, unless no buffer is at hand; the wait fails exactly when the replies end too early; after success at most the window, at most 15, is unacknowledged; other registers leave the SPI invariants alone. |
| FifoCtrl.FifoCtrl.Peek32 | host/umtrx_fifo_ctrl.cpp:80-86 | One read is sent, of register (address - 0x5C00) / 4 in the readback range. The value is the data word of the reply to this request, never of an earlier one, the request has arrived, and nothing stays unacknowledged. |
| FifoCtrl.FifoCtrl.InitSpi | host/umtrx_fifo_ctrl.cpp:102-109 | Register 185 is set to divide by 16, the device's control word kept, and the cached one void exactly after success; each failure adds at most one. |
| FifoCtrl.FifoCtrl.LoadCtrlWord | host/umtrx_fifo_ctrl.cpp:130-135 | From any state: success, the word the device then holds, and whether it agrees with the cache are decided beforehand by cache, device and oracles. What is sent is a write of register 186. |
| FifoCtrl.FifoCtrl.SendData | host/umtrx_fifo_ctrl.cpp:137-139 | All executed transfers are right afterwards exactly when they were and this one is not executed under another word. |
| FifoCtrl.FifoCtrl.TransactSpi | host/umtrx_fifo_ctrl.cpp:111-148 | From any state, and decided beforehand by state and oracles, each as an if-and-only-if: whether the call succeeds, whether the device executes the data command under the control word of this slave, length and edges, and whether cache and device agree afterwards. They do if the word was cached or no buffer was at hand and they agreed before; if the acknowledgement came too late, and the cache was void or the agreeing device missed the word; and if it came in time, and the word arrived or the device had it. A successful call sends the control word to register 186 unless cached, the data word to register 187, and, to read back, a read of register 0, whose reply is the value. |
| FifoCtrl.FifoCtrl.Transfer | host/umtrx_fifo_ctrl.cpp:130-138 | The same for control and data word alone. |
| FifoCtrl.CutOff | host/umtrx_fifo_ctrl.cpp:131-135 | A run of construction and three calls: slave 1, slave 2 with one late acknowledgement, slave 1 again; the last succeeds and is executed under slave 2's word. |
| FifoCtrl.LostWord | host/umtrx_fifo_ctrl.cpp:131-138 | A run with one command of slack in which nothing times out: the control word for slave 2 is lost and its transfer is executed under slave 1's word. |
| FlowControl.ReadyIffCredit | host/umtrx_io_impl.cpp:325-327 | The 32-bit test compares the true number of sequence numbers not yet acknowledged. |
| FlowControl.StepKeepsInv | host/umtrx_io_impl.cpp:297-353 | Check, buffer, sequence, commit, drain and acknowledgement each keep the credit invariant. |
| FlowControl.RunsKeepInv | host/umtrx_io_impl.cpp:297-353 | The invariant holds after every interleaving of these steps. |
| FlowControl.WrappedDifference | host/umtrx_io_impl.cpp:325-327 | The 32-bit difference of wrapped counters is the true one while that is below 2^32. |
| FlowControl.BytesBounded | host/umtrx_io_impl.cpp:489-491 | Frames in flight occupy at most their number times the frame size. |
| FlowControl.MemoryNeverOverflows | host/umtrx_io_impl.cpp:489-491 | In every run, however often the counters wrap, frames in flight never exceed the window, their bytes fit the packet memory, and flow-control words are consecutive. |
| FlowControl.CreditReturns | host/umtrx_io_impl.cpp:306-311 | Once everything is acknowledged an idle sender passes the check exactly when a frame fits the memory. |
| FlowControl.WindowFillsMemory | host/umtrx_io_impl.cpp:489-491 | The window is the largest number of full frames that fit the 512 KiB of packet memory. |
| FlowControl.HeldBackIffFull | host/umtrx_io_impl.cpp:306-311 | In every reachable idle state the sender is held back exactly when the frames not yet acknowledged and one more, all of full size, do not fit the memory. |
| FlowControl.CreditIsUsable | host/umtrx_io_impl.cpp:297-311 | The bound is reached: without any acknowledgement there is a run that commits as many full frames as fit the memory. |
| FlowControl.CanDrain | host/umtrx_io_impl.cpp:325-353 | From every reachable state the device can drain and acknowledge everything. |
| FlowControl.Extends | host/umtrx_io_impl.cpp:297-353 | A run can be continued by any step enabled at its end. |
| SendHandler.FragmentsTile | host/cores/super_send_packet_handler.hpp:233-264 | The fragments partition the samples into adjacent pieces of 1 to max, only the last one short. |
| SendHandler.CountFacts | host/cores/super_send_packet_handler.hpp:238-239 | The fragment count covers all samples, with a last piece of 1 to max. |
| SendHandler.FlagsAndTimes | host/cores/super_send_packet_handler.hpp:176-264 | Without cached metadata start-of-burst is only on the first fragment, end-of-burst only on the last, and each is stamped with the time of its first sample. |
| SendHandler.CachedTimes | host/cores/super_send_packet_handler.hpp:192-256 | With cached metadata every time that is sent is that of its first sample exactly when the call is one packet, has its own time, no time is sent, or it repeats the cached one. |
| SendHandler.CachedEndOfBurst | host/cores/super_send_packet_handler.hpp:192-261 | The last fragment's end-of-burst is the caller's exactly when there are several fragments or the cached flag agrees. |
| SendHandler.CachedTimeLost | host/cores/super_send_packet_handler.hpp:192-256 | A run of two calls whose second packet loses the cached time. |
| SendHandler.CachedTimeOverridden | host/cores/super_send_packet_handler.hpp:192-256 | A run of two calls in which the second brings its own time: both packets carry it, and the first opens the burst as the cached call asked. |
| SendHandler.CachedEndLost | host/cores/super_send_packet_handler.hpp:192-228 | A run of two calls whose only packet does not close the burst although the second call asks for it. |
| SendHandler.CachedDropped | host/cores/super_send_packet_handler.hpp:192-228 | A run of three calls: a call that sends nothing because its request is not met uses the cached metadata up, and its repetition neither opens the burst nor carries the time. |
| SendHandler.OpenedBurst | host/cores/super_send_packet_handler.hpp:170-270 | The headers that a start of burst without samples and a call of four put on the wire. |
| SendHandler.Handler.TakeBuffers | host/cores/super_send_packet_handler.hpp:358-362 | One request per channel that holds no buffer; it succeeds exactly when all of them are met in time, and otherwise stops at the first that is not, keeping what it has with its flow-control words. |
| SendHandler.Handler.TakeBuffer | host/cores/super_send_packet_handler.hpp:360-361 | One request yields the channel's next flow-control word, or nothing on a timeout. |
| SendHandler.Handler.CommitAll | host/cores/super_send_packet_handler.hpp:370-411 | Every channel gets one packet with its own samples and the same number, and numbers stay consecutive on every wire. |
| SendHandler.Handler.SendOnePacket | host/cores/super_send_packet_handler.hpp:345-375 | A fragment is committed on all channels exactly when every request is met in time, and on none otherwise. |
| SendHandler.Handler.constructor | host/cores/super_send_packet_handler.hpp:68-76 | A new handler satisfies the invariant with nothing on any wire, no packet numbered, no buffer requested or held and nothing cached. |
| SendHandler.Handler.SendFragment | host/cores/super_send_packet_handler.hpp:233-264 | Fragment j is sent exactly when all requests of the call up to it are met; then it extends on every wire what the call has carried so far, otherwise no wire changes and the call has stopped at the first request that was not met. |
| SendHandler.Handler.SendSamples | host/cores/super_send_packet_handler.hpp:205-270 | Of the planned fragments exactly those are on every wire whose requests were all met in time. |
| SendHandler.Handler.SendMany | host/cores/super_send_packet_handler.hpp:230-270 | The same for a call of more than one packet. |
| SendHandler.LoopFragment | host/cores/super_send_packet_handler.hpp:241-258 | The fragments the loop builds are the planned ones. |
| SendHandler.FinalFragment | host/cores/super_send_packet_handler.hpp:260-264 | So is the one behind the loop, which reaches the end of the buffer. |
| SendHandler.CarriesMore | host/cores/super_send_packet_handler.hpp:233-264 | One more planned fragment on a wire extends the samples carried by exactly its piece of the buffer. |
| SendHandler.HeadersOnWire | host/cores/super_send_packet_handler.hpp:183-264 | Every header a call puts on a wire, field by field: without cached metadata as asked; with it, the flags of the first packet are the cached ones, its time is the caller's if there is one and otherwise the cached one, and all packets carry a time exactly when either has one. |
| SendHandler.CallOnWires | host/cores/super_send_packet_handler.hpp:183-264 | The same on all channels, whose packets together hold exactly the samples counted from the front of their buffers. |
| SendHandler.CachedOnWires | host/cores/super_send_packet_handler.hpp:192-203 | The first packet of a call that takes up cached metadata has a time if either call gave one, the caller's before the cached one, and the cached start of burst; all its packets have a time or none has. |
| SendHandler.Handler.SendCall | host/cores/super_send_packet_handler.hpp:192-270 | A call with samples uses the cached metadata up, and of its planned fragments exactly those are on every wire whose requests were all met. |
| SendHandler.Handler.WiresNumbered | host/cores/super_send_packet_handler.hpp:347-411 | In every reachable state all wires carry equally many packets, numbered from zero by the packet counter and, modulo 2^32, by flow control. |
| SendHandler.Handler.Send | host/cores/super_send_packet_handler.hpp:170-270 | The value returned is exactly the number of samples committed on every channel; they are the first of the caller's buffers in whole fragments with the planned headers. Fragment j is committed exactly when all requests up to it are met in time, so the call is complete exactly when all of them are and sends nothing exactly when one for the first packet is not; where it stopped and what it holds for the next call is stated. Calls without samples cache or send one zero. Headers are stated field by field on the wires: with cached metadata the first packet has a time if either call gave one, the caller's before the cached one, and the cached start of burst. |
| Flash.PageWrittenStep | zpu/umtrx/spi_flash.c:100-110 | Shifting in one more byte, wrapping inside the page, extends the page program by it. |
| Flash.PageWriteIsPlain | zpu/umtrx/spi_flash.c:74-111 | Although all 256 bytes are sent from an unaligned start, the effect is old AND data on the range and nothing else, as long as the data stays in its page. |
| Flash.CursorFacts | zpu/umtrx/spi_flash.c:100-110 | The device's address stays in its page and visits every byte of it once. |
| Flash.ProgrammedAppends | zpu/umtrx/spi_flash.c:144-159 | Programming adjacent pieces one after the other programs the whole. |
| Flash.RoundDownMask | zpu/umtrx/spi_flash_private.h:64-68 | The mask clears the low bits for both sector sizes. |
| Flash.RoundDownFacts | zpu/umtrx/spi_flash_private.h:64-68 | Rounding down gives the start of the sector the address lies in. |
| Flash.SpanStep | zpu/umtrx/spi_flash.c:125-127 | One iteration of the erase loop extends the erased span, including the start address equal to the memory size. |
| Flash.StrayEraseIff | zpu/umtrx/spi_flash.c:50-62 | An erase changes something outside the sectors asked for exactly when these start after sector zero, no later than the memory size, and run on past the end of the memory. |
| Flash.SpanInside | zpu/umtrx/spi_flash.c:116-129 | Inside the memory the loop erases exactly the sectors asked for. |
| Flash.ProgramAfterErase | zpu/umtrx/spi_flash.c:116-163 | Programming erased memory yields the data. |
| Flash.Flash.Wait | zpu/umtrx/spi_flash.c:43-48 | Waiting ends with an idle device. |
| Flash.Flash.Done | zpu/umtrx/spi_flash.c:37-41 | True exactly when the device was idle. |
| Flash.Flash.WriteEnable | zpu/umtrx/spi_flash.c:30-35 | An idle device is enabled and no command dropped. |
| Flash.Flash.Transfer | zpu/umtrx/spi_flash.c:100-110 | Sixteen more bytes reach the page in order. |
| Flash.Flash.ProgramPiece | zpu/umtrx/spi_flash.c:144-159 | One page command, by its own check, extends the range written so far, below, at and beyond 2^32. |
| Flash.Flash.PieceContinues | zpu/umtrx/spi_flash.c:64-72 | Below 2^32 pieces inside the memory are written and later ones refused; the piece that ends at 2^32 lands on the last page; the rest goes on at address zero. |
| Flash.PieceAccepted | zpu/umtrx/spi_flash.c:74-111 | An accepted piece that stays in its page is a plain write at its device address. |
| Flash.Flash.EraseSectorStart | zpu/umtrx/spi_flash.c:50-62 | Exactly one sector is erased and the command is never dropped; an address equal to the memory size passes the guard and erases sector zero, one beyond erases nothing. |
| Flash.Flash.PageProgramStart | zpu/umtrx/spi_flash.c:64-114 | Refusals are exactly an empty or oversized buffer or a wrapped end behind the device; otherwise the page gets the padded buffer. |
| Flash.Flash.Erase | zpu/umtrx/spi_flash.c:116-129 | For every range but those that end in the topmost sector of the address space: the memory afterwards is the old one with the span erased, or the old one unchanged where the end, taken in 32 bits, lies in a sector before that of the start; the device is idle. |
| Flash.EraseNeverEnds | zpu/umtrx/spi_flash.c:122-127 | If the last sector is the topmost of the address space the loop variable never passes it. |
| Flash.SteppedIs | zpu/umtrx/spi_flash.c:122-127 | After k steps the loop variable is the first sector plus k sectors modulo 2^32. |
| Flash.Flash.Program | zpu/umtrx/spi_flash.c:131-163 | Acceptance is exactly the 32-bit check. Without overflow every byte becomes old AND new and nothing outside changes, whatever the alignment; with overflow the range is cut at 2^32, one piece lands on the last page and the rest at the start of the memory. |
| Flash.PlainIff | zpu/umtrx/spi_flash.c:139-159 | An accepted range is a plain write, for all data and contents, exactly when its end does not overflow 32 bits. |
| Flash.OverflowingProgram | zpu/umtrx/spi_flash.c:131-163 | A call with an address far behind every device that is accepted and clears the last page. |
| Flash.Flash.AsyncEraseStart | zpu/umtrx/spi_flash.c:165-185 | An accepted range, one that overflows 32 bits included, starts with its first sector; an invalid or empty one starts nothing. |
| Flash.Flash.AsyncErasePoll | zpu/umtrx/spi_flash.c:187-204 | For any job: nothing happens while busy or done; otherwise the address counts on in 32 bits; a job in good order stays so, its sectors started in order and once each; true comes only when all are done and the device is idle; no command reaches a busy device. |
| Flash.Flash.AsyncErase | zpu/umtrx/spi_flash.c:165-204 | For every range and any pattern of busy polls the erase ends: a refused one changes nothing, an accepted one erases exactly what counting from first to last in 32 bits meets, and inside the device that is what the synchronous one erases. |
| Flash.JobStep | zpu/umtrx/spi_flash.c:187-204 | The next address continues a job, across 2^32 as well, and brings it closer to its end. |
| Flash.LandingsOnce | zpu/umtrx/spi_flash.c:165-204 | Inside the memory every sector of the range is started exactly once, in increasing order, and no other. |
| Flash.WrappedJob | zpu/umtrx/spi_flash.c:165-204 | Which sectors an accepted range that wraps erases: those from zero to its wrapped end, and those from its start on if that lies inside. |
| Flash.OverflowingErase | zpu/umtrx/spi_flash.c:116-204 | The same overflowing range erases sector zero asynchronously and nothing synchronously. |
| Flash.Flash.Read | zpu/umtrx/spi_flash_read.c:72-119 | The chunked read fills exactly the requested bytes with the memory contents. |
| Flash.Flash.Replace | zpu/umtrx/udp_fw_update.c:91-108 | Erase and program of a range inside the device leave the data there and every other byte of the erased sectors at ones. |
| Flash.Flash.Rewrite | zpu/umtrx/udp_fw_update.c:91-113 | Erase, program, read gives the buffer back for every range inside the device. |
| Flash.RewriteStaysInside | zpu/umtrx/spi_flash.c:116-163 | Such a rewrite changes nothing outside the erased sectors. |
| Gpsdo.AcceptsIffNear | zpu/lib/gpsdo.c:204-206 | The unsigned validity test is about the true distance from 52 MHz. |
| Gpsdo.FilterStep | zpu/lib/gpsdo.c:219-222 | The filter update never overflows 32 bits, moves by a rounded eighth of the error, and stays between state and input. |
| Gpsdo.ErrorShrinks | zpu/lib/gpsdo.c:219-222 | Under a steady reading the error keeps its sign and strictly shrinks until it lies in [-4, 3], where it stays. |
| Gpsdo.FilterConverges | zpu/lib/gpsdo.c:219-222 | After k steady readings the error beyond the dead zone is at most (7/8)^k of what it was. |
| Gpsdo.FilterSettles | zpu/lib/gpsdo.c:219-222 | The error is in the dead zone after at most as many readings as its size. |
| Gpsdo.StaysSettled | zpu/lib/gpsdo.c:219-222 | In the dead zone the filter does not move any more. |
| Gpsdo.CorrectionIdealIff | zpu/lib/gpsdo.c:123-155 | For every error sum, the correction computed in 32 bits is that of unbounded arithmetic exactly when the three terms add up to a 32-bit value or wrap to one that saturates on the same side. |
| Gpsdo.CorrectionCutsOnce | zpu/lib/gpsdo.c:123-155 | Cutting every intermediate to 32 bits is cutting the sum once. |
| Gpsdo.YoungIsFaithful | zpu/lib/gpsdo.c:141-155 | Whatever the readings, that holds within 13097 steps of a reset. |
| Gpsdo.SteadyWindup | zpu/lib/gpsdo.c:141-158 | For every steady error, positive or negative, the correction is right up to the step at which the terms leave 32 bits and fully reversed from there on, up to almost 2^32. |
| Gpsdo.DacWordIs | zpu/lib/gpsdo.c:46-58 | What reaches the converter are the low 12 bits of initial value plus correction; the 16-bit variable in between cuts nothing more. |
| Gpsdo.DacFitsIff | zpu/lib/gpsdo.c:46-58 | The 12-bit mask changes no value, over all corrections, exactly when the initial value is 2047 or 2048. |
| Gpsdo.DacExtremes | zpu/lib/gpsdo.c:123-163 | Runs of three readings that reach the two extreme corrections, for every initial value. |
| Gpsdo.Windup | zpu/lib/gpsdo.c:123-236 | A run of readings 10 kHz low: full positive correction at step 13417, full negative at step 13418. |
| Gpsdo.Gpsdo.constructor | zpu/lib/gpsdo.c:238-275 | The unprogrammed EEPROM value starts the DAC in the middle. |
| Gpsdo.Gpsdo.SetDac | zpu/lib/gpsdo.c:282-290 | The loop is reset around the new value and the filter keeps its state. |
| Gpsdo.Gpsdo.PidStep | zpu/lib/gpsdo.c:123-163 | The exact error sum grows by the clamped error, and the DAC gets the value of unbounded arithmetic exactly when the terms fit or wrap to the same side, decided by the sum before the step. |
| Gpsdo.Gpsdo.OnReading | zpu/lib/gpsdo.c:188-236 | Over every run of readings the filter stays in its range; invalid readings change nothing; the first two valid ones after a reset only initialize; later ones run filter and PID, which equals unbounded arithmetic under exactly the condition of the PID step; from a 12-bit value the DAC stays in 12 bits for the two middle initial values. |
| Gpsdo.Gpsdo.Steady | zpu/lib/gpsdo.c:188-236 | Over k equal readings of a settled loop the error sum grows by k times the clamped error, and the DAC follows the last of them. |
| I2cAsync.ReadStep | zpu/lib/i2c_async.c:48-135 | Each interrupt of a read keeps its invariant, does nothing while the bus is in progress, and otherwise brings it one byte on. |
| I2cAsync.ReadTransfers | zpu/lib/i2c_async.c:86-128 | Over every interleaving the read is one byte further for each completion, the commands are one request per byte with NACK and STOP only on the last, the pointer stays in the buffer, and a completed read holds exactly the slave's bytes in order. |
| I2cAsync.WriteStep | zpu/lib/i2c_async.c:95-108 | Each interrupt of a write keeps its invariant, does nothing while the bus is in progress, and otherwise brings it one byte on. |
| I2cAsync.WriteTransfers | zpu/lib/i2c_async.c:95-128 | Over every interleaving a write is one byte further for each completion, and when idle again it has sent exactly the buffer, in order, with STOP only on the last byte. |
| I2cAsync.ArbitrationLossEnds | zpu/lib/i2c_async.c:60-64 | Arbitration loss at any point of any transfer ends it for good: one STOP, the bytes received so far kept, no later interrupt with any effect, and the next transfer accepted. |
| I2cAsync.EmptyWriteRunsOn | zpu/lib/i2c_async.c:95-108 | A started write is kept in its buffer by the handler exactly when its length is not zero. |
| I2cAsync.EmptyWriteLeavesBuffer | zpu/lib/i2c_async.c:171-194 | An empty write has fetched k bytes after k completions, up to 255. |
| I2cAsync.I2c.AsyncRead | zpu/lib/i2c_async.c:149-169 | A read is refused unless the machine is idle and the length is at most 17; a started one satisfies the read invariant for every slave and has issued one start command, the low seven bits of the address above a one. |
| I2cAsync.I2c.AsyncWrite | zpu/lib/i2c_async.c:171-194 | A write is refused under the same conditions, copies its data first, and satisfies the write invariant unless empty; its one start command is the low seven bits of the address above a zero. |
| I2cAsync.StartIsAtomicIff | zpu/lib/i2c_async.c:156-168 | If interrupts could arrive inside a start, it would be the atomic one exactly when each finds the transfer in progress; any other would leave interrupts off in a state that is never left again. |
| I2cAsync.PolledStartIsAtomic | zpu/lib/pic.c:51-70 | With the dispatcher of this firmware, which is polled between calls, every start is the atomic one. |
| I2cAsync.DeliveredWhileIdle | zpu/lib/i2c_async.c:66-79 | In the idle state the first interrupt that is not harmless ends with an error and interrupts off. |
| I2cAsync.DisabledStays | zpu/lib/i2c_async.c:141-147 | With interrupts off nothing on the bus changes the machine. |
| I2cAsync.I2c.IrqHandler | zpu/lib/i2c_async.c:48-135 | The handler's effect on the globals is the step the run lemmas are about. |
| I2cAsync.I2c.constructor | zpu/lib/i2c_async.c:31-36 | The machine starts idle with interrupts off and no command issued. |
| I2cAsync.I2c.NextByte | zpu/lib/i2c_async.c:80-109 | The shared part of two states asks for the next byte as the step function does. |
| I2cAsync.I2c.StoreData | zpu/lib/i2c_async.c:87-116 | A received byte lands at the pointer, which moves on. |
| I2cAsync.I2c.CopyIn | zpu/lib/i2c_async.c:171-194 | The data are copied to the front of the buffer, whose rest is kept. |
| I2cAsync.I2c.AsyncErr | zpu/lib/i2c_async.c:141-147 | An error leaves the machine idle, interrupts off, with a STOP as last command. |
| I2cAsync.RunsOn | zpu/lib/i2c_async.c:95-108 | While the count lasts, each completion of a write fetches one more byte. |
| I2cAsync.I2c.AsyncDataReady | zpu/lib/i2c_async.c:197-205 | Received bytes are handed over once, and nothing else is written. |
| Mtu.ProbeMakesProgress | host/umtrx_impl.cpp:168-182 | A probe is above the lower bound and shrinks the interval exactly when the bounds are more than one apart, and never exceeds the upper one rounded up to 4. |
| Mtu.ProbeIsMiddle | host/umtrx_impl.cpp:170-171 | Halving both bounds and rounding is the rounded middle of the interval. |
| Mtu.ProbeStaysBelow | host/umtrx_impl.cpp:170-171 | Towards an upper limit that leaves 1 modulo 4 a probe covers half of the remaining multiples of 4 and none beyond. |
| Mtu.BestFound | host/umtrx_impl.cpp:168-182 | Bounds that have met enclose the largest size the path carries. |
| Mtu.NeverEnds | host/umtrx_impl.cpp:168-182 | A search that does not meet the condition for ending never has its bounds meet. |
| Mtu.Search | host/umtrx_impl.cpp:165-198 | Every search that can end does, after a number of probes at which the bounds have met; probes larger than the buffer fail. Whatever is lost the result worked or is the minimum; on a path with a limit it is the largest multiple of 4 within limit, buffer, and upper bound rounded up to 4. |
| Mtu.DetermineMtu | host/umtrx_impl.cpp:143-203 | Both searches share a buffer of the larger of the two limits; each finds the largest size that its path, its limit rounded up to 4 and that buffer allow. |
| Mtu.Exceeding | host/umtrx_impl.cpp:152-182 | A run with limits 1474 and 1500 on a path of 2000 that ends with 1476 and 1500. |
| Mtu.CutKeepsEnds | host/umtrx_impl.cpp:152-182 | The buffer has no influence on whether a search ends. |
| Mtu.StaysWithin | host/umtrx_impl.cpp:168-182 | One probe keeps the bounds around the size to be found. |
| Mtu.EndsOnPathIff | host/umtrx_impl.cpp:168-182 | On a path with a limit the search ends exactly when the upper bound does not leave 1 modulo 4 or the path does not carry the multiple of 4 below it. |
| Mtu.ExceedsIff | host/umtrx_impl.cpp:152-178 | The result exceeds the upper bound exactly when that leaves 2 or 3 modulo 4 and both the path and the buffer take the next multiple of 4; never when the other limit is not larger. |
| Mtu.ClimbBelow | host/umtrx_impl.cpp:168-178 | Successful probes towards a bound that leaves 1 modulo 4 never pass the multiple of 4 below it. |
| Mtu.ClimbReaches | host/umtrx_impl.cpp:168-178 | They reach it. |
| Lms6002d.BandFacts | host/lms6002d.cpp:55-72 | The bands join without gap or overlap and keep the VCO between 3.72 and 7.44 GHz. |
| Lms6002d.SelByFrequency | host/lms6002d.cpp:55-72 | FREQSEL as a function of frequency: the low bits give the power of two that brings the VCO above 3.72 GHz, the high bits number the VCO by the frequency it then runs at, with limits at 4.57, 5.39 and 6.48 GHz. |
| Lms6002d.BandsOrdered | host/lms6002d.cpp:55-72 | A later band starts no lower than an earlier one ends. |
| Lms6002d.BandUnique | host/lms6002d.cpp:78-82 | At most one band matches a frequency. |
| Lms6002d.FindBand | host/lms6002d.cpp:76-87 | The lookup fails exactly outside (232.5 MHz, 3.72 GHz] and otherwise returns the matching band. |
| Lms6002d.TuningError | host/lms6002d.cpp:89-93 | The fraction fits 23 bits and the frequency falls short of the request by less than one step. |
| Lms6002d.NintFitsIff | host/lms6002d.cpp:89-91 | The integer part fits 9 bits for every tunable frequency exactly when the reference exceeds 14.53125 MHz. |
| Lms6002d.PackRoundTrip | host/lms6002d.cpp:98-102 | The four registers hold the divider values exactly when these fit their fields. |
| Lms6002d.ProgrammedWithinStep | host/lms6002d.cpp:89-102 | What the registers decode to is within one step below the request for every tunable frequency. |
| Lms6002d.ProgrammedError | host/lms6002d.cpp:89-102 | The register contents decode to within one step below the request for every VCO frequency up to 7.44 GHz. |
| Lms6002d.StretchUnique | host/lms6002d.cpp:114-156 | At most one stretch of capacitor values starts with the first normal reading and ends before a low one, so the value chosen is determined by the readings. |
| Lms6002d.ScanVcoCap | host/lms6002d.cpp:114-156 | The scan fails exactly on an invalid reading or when none is normal, and otherwise takes the middle of the stretch from the first normal reading to the last one before a low reading follows. |
| Lms6002d.Pll.Tune | host/lms6002d.cpp:52-162 | Untunable frequencies touch nothing; others program band, dividers and capacitor; the other bits of the two shared registers and all other registers keep their values; failure is exactly that of the scan. |
| Lms6002d.Pll.WriteDividers | host/lms6002d.cpp:89-104 | Dividers and band are written, the low bits of the band register and all other registers kept. |
| Lms6002d.Pll.WriteVcoCap | host/lms6002d.cpp:114-158 | Only the capacitor bits change, and end in the middle of the stretch when there is one. |
| Umsel2.ModifyFieldSets | host/umsel2_ctrl.cpp:102-103 | The field holds the value cut to its width and every other bit is as before. |
| Umsel2.LowerFieldKept | host/umsel2_ctrl.cpp:102-103 | Setting a field keeps every field below it. |
| Umsel2.UpperFieldKept | host/umsel2_ctrl.cpp:102-103 | Setting a field keeps every field above it. |
| Umsel2.ModifyInside | host/umsel2_ctrl.cpp:102-103 | Setting a field changes nothing outside any bounds that enclose it. |
| Umsel2.OutputDivider | host/umsel2_ctrl.cpp:341-350 | The search ends with the smallest divider that brings the VCO to 3.4 GHz, at most 2^6. |
| Umsel2.ReferenceDivider | host/umsel2_ctrl.cpp:362-372 | The search ends for every reference with the smallest divider that makes the feedback divider at least 23. |
| Umsel2.Split | host/umsel2_ctrl.cpp:377-382 | The fractions fit and lose less than one step of the finer one; the modulus is zero exactly below 1 MHz. |
| Umsel2.SplitError | host/umsel2_ctrl.cpp:377-382 | Cutting integer part, coarse and fine fraction in turn loses less than one fine step. |
| Umsel2.BandDivision | host/umsel2_ctrl.cpp:388-391 | The smallest n for which the comparison frequency divided by 16 n is below 150 kHz. |
| Umsel2.OutputError | host/umsel2_ctrl.cpp:451-453 | A divider value short by less than one fractional step puts the output below the request by less than one step of the output. |
| Umsel2.Synth.Load | host/umsel2_ctrl.cpp:415-449 | After loading and the update sequence the registers decode to the divider values given, cut to their fields, with all options in their final state, and every bit that holds none of them is as before. |
| Umsel2.Synth.LoadReg0 | host/umsel2_ctrl.cpp:416-418 | The integer part, cut to 16 bits, survives the option bits written after it. |
| Umsel2.Synth.LoadReg2 | host/umsel2_ctrl.cpp:420-421 | Modulus and fine fraction do not disturb each other. |
| Umsel2.Synth.LoadReg4 | host/umsel2_ctrl.cpp:422-424 | The reference divider, cut to 10 bits, survives the option bits written after it. |
| Umsel2.Synth.LoadReg9 | host/umsel2_ctrl.cpp:426-429 | Four adjacent fields hold their four values. |
| Umsel2.Synth.SetCounterReset | host/umsel2_ctrl.cpp:438-444 | Counter reset changes one bit of register 4 and leaves reference divider and options alone. |
| Umsel2.Synth.SetAutocal | host/umsel2_ctrl.cpp:442-448 | Autocalibration changes one bit of register 0 and leaves integer part and prescaler alone. |
| Umsel2.Synth.WriteReg | host/umsel2_ctrl.cpp:461-466 | One word is sent to the chip, the register with its number in the low four bits. |
| Umsel2.Synth.Update | host/umsel2_ctrl.cpp:432-449 | Nine words are sent in the fixed order, and the registers are afterwards as before but for released counters and autocalibration on. |
| Umsel2.Synth.constructor | host/umsel2_ctrl.cpp:311-313 | After all registers were sent the chip holds them, whatever it held at first. |
| Umsel2.UpdateOrder | host/umsel2_ctrl.cpp:432-449 | The words of an update are for registers 6, 9, 10, 4, 2, 1, 0, 4, 0; the dividers are sent while the counters are held in reset, and calibration starts with the last word, after their release, with the same integer part. |
| Umsel2.UpdateReaches | host/umsel2_ctrl.cpp:432-449 | An update makes a chip that held the driver's old registers hold the new ones, if only those it sends had changed. |
| Umsel2.WordHolds | host/umsel2_ctrl.cpp:463 | The chip finds the register's number and all its other bits in the word. |
| Umsel2.WordField | host/umsel2_ctrl.cpp:463 | Every field above the number can be read from the word. |
| Umsel2.ChipDecodes | host/umsel2_ctrl.cpp:415-449 | What the chip holds decodes to the same dividers as the driver's registers. |
| Umsel2.ModifyTwice | host/umsel2_ctrl.cpp:102-103 | Setting a field twice is setting it once. |
| Umsel2.Synth.CeilTimeout | host/umsel2_ctrl.cpp:398 | The smallest timeout whose 30-fold reaches 50 us, which fits 10 bits. |
| Umsel2.Synth.TuneSynth | host/umsel2_ctrl.cpp:336-459 | For references from 4 Hz on and the advertised range: there is no result exactly for references below 1 MHz; the reference divider is the smallest admissible one and fits its field under an exact condition; otherwise the frequency returned is what the loaded divider produces, below the request by less than one step; autocalibration is on and the counters released at the end, lock timeout and band division are the smallest admissible ones, and all other bits are untouched. The words reach the chip in the order of the update, and afterwards it holds the driver's registers, in every run of calls. |
| Umsel2.Synth.Plan | host/umsel2_ctrl.cpp:341-398 | All values to be loaded fit their fields but for the reference divider and, below 1 MHz, the integer part, and the divider planned is within one step below the request. |
| Umsel2.Synth.DividerFits | host/umsel2_ctrl.cpp:362-372 | The comparison frequency is at most 296 MHz, and at least 1 MHz exactly if the reference is. |
| Umsel2.Synth.FitsIff | host/umsel2_ctrl.cpp:362-372 | The smallest admissible reference divider fits 10 bits exactly when 23 times the reference is at most 1023 times the VCO frequency. |
| Checksum.OnesUnique | zpu/lib/net_common.c:47-60 | The result is the unique 16-bit value congruent to the sum modulo 65535 that is zero only for zero. |
| Checksum.OnesFold | zpu/lib/net_common.c:57-58 | Folding keeps the one's complement sum and shrinks the accumulator, so the loop ends. |
| Checksum.ComplementCloses | zpu/lib/net_common.c:236-242 | Adding the complement of a sum gives all ones. |
| Checksum.OnesChains | zpu/lib/net_common.c:337-344 | Summing in parts equals summing the whole. |
| Checksum.ChksumBuffer | zpu/lib/net_common.c:50-60 | For up to 65536 words and a 16-bit seed the accumulator does not overflow, folding ends, and the result is the one's complement sum. |
| Checksum.FillChecksum | zpu/lib/net_common.c:229-242 | With the complement in the zeroed field a receiver's sum is all ones. |
| Checksum.EchoChecksum | zpu/lib/net_common.c:331-344 | The chained checksum of an echo reply verifies at the receiver. |
| Checksum.OddByte | zpu/lib/net_common.c:337-344 | With an odd last byte it verifies exactly when that byte is zero. |

## Left out

- Transports, sockets, the property tree, monitoring, UART, LEDs and sleeps: plumbing, represented by oracles where needed.
- VRT header packing and sample conversion: library code; packets appear decoded, and items are copied unchanged.
- The overflow and flow-control callbacks of the receive handler: the driver never sets them, so the default that does nothing is modelled.
- Rounding of `double` and of time to ticks: times and frequencies are exact reals.
- More than one converter output per channel: the driver always uses one.
- Flash.Flash.Erase: excludes ranges that end in the topmost sector of the 32-bit address space, for which the loop does not end, see `EraseNeverEnds`.
- Gpsdo.Gpsdo.OnReading: excludes the one reading for which the absolute value is undefined in C.
- Mtu.Search: excludes exactly the searches that do not end, see `NeverEnds`.
- FifoCtrl.FifoCtrl.Exchange: assumes fewer than 32752 timeouts in a row, beyond which 16-bit numbers are ambiguous.
- Umsel2.Synth.TuneSynth: does not model the pause before calibration, nor references below 4 Hz, for which the integer part leaves the range of an int.
- The flow-control monitor is modelled as a state machine over its steps, not as a class, because two threads interleave in it.
- Transmission of registers over the SPI peripheral, which sends bytes in memory order, and reads of the status register other than its busy bit.
- The callback at the end of an I2C transfer (zpu/lib/i2c_async.c:124-126), which the driver calls and does not depend on.
- The ARP table, EEPROM, calibration, gain tables, sensors, time registers, ihex and printf: small or easier than what is modelled.
- The framer's IP checksum, which is stored without complement for the hardware to finish.

# P4 display driver and FPGA controller: a verified model

The P4 project drives a Private Eye head-mounted display. A Linux kernel driver (`kmod/`) rotates what
userspace draws, encodes the differences between frames into packets, and sends them over SPI; an
FPGA (`fpga/`) buffers the bytes, interprets them as commands, and clocks them into the display. This
directory holds a Dafny 4.11 model of that path, from the pixels of a picture to the bits on the
display's wires, and proofs of what it is for. `dafny verify dfyconfig.toml` checks everything.

The model follows the code. Code that changes things step by step is modelled by classes and methods
with loops; each is proved against a function or a description of its result, and what the project
promises is proved about those.

## How the parts fit together

| files | what they model |
|---|---|
| `Bytes`, `Words`, `Callback`, `Modular` | bytes, eight-byte loads and their zero-byte counts, the callback protocol, division by variables |
| `DiffScan`, `RleScan` | the word-at-a-time scanners, against byte-at-a-time references |
| `Packets`, `SendBuffer`, `Encoder`, `SizeBound` | the packet format, the reference decoder, the send buffer, the differential encoder, its worst case |
| `CommandFsm`, `EndToEnd` | the FPGA's command interpreter byte by byte, the display behind it, and the encoder's main theorem |
| `Cuts`, `Drainer`, `Sends`, `Resets`, `Delivers`, `Driver` | packet streams that break off; the three frames and flags of the driver as a state machine over all its threads; runs with failing sends; resets in the middle of a send; what is sure to be delivered; and the code in place |
| `GrayCode`, `AsyncFifo`, `FlowControl` | the dual-clock FIFO for any size, and the credit protocol of the host |
| `SpiSlave`, `Transmitter` | the serial receiver and transmitter, bit by bit |
| `PrivEye`, `Refinement`, `Wires`, `Progress`, `FrameGate`, `FrameMark`, `BosTiming`, `Throttle`, `Refresh`, `Recovery` | the display controller clock by clock: it refines the interpreter, never stalls, gates new frames, keeps the BOS timing, stops when READY falls, knows when the display is cold, and recovers from time-out and disconnection |
| `BytePath`, `HostPath` | host, FIFO, controller and display wires together, and the drainer as the host |
| `BitMatrix`, `Rotation`, `Damage` | the quarter turn of one-bit images, scalar and NEON, and the update from damage clips |

The display itself is an assumption, stated in `CommandFsm`: a BOS sequence sets the flags and the
address, image bytes are stored at an address that advances and is never reset
(kmod/update.c:225-234).

## Where the code and its documentation disagree

The model follows the code; each of these is proved, with the exact condition under which the
documentation holds where there is one.

- kmod/sender.c:716-718 says that the reference frame always reflects the FPGA and that a failed send
  is retried. A frame that was encoded but not sent is lost (`Drainer.SkippedFrameIsLost`,
  `Drainer.SkippedRefreshIsLost`, `Drainer.TimeoutIsSkip`), and the frames change places after a
  flags-only send too; `Drainer.WakeKeepsIff` says exactly which wake-ups keep the invariant. A
  transfer that fails in the middle of a packet leaves the FPGA out of step even for a full refresh
  (`Sends.FirstByteStrands`), and one that fails late leaves the new picture behind the driver's back
  (`Sends.LateErrorKeepsIff`); `Sends.FailKeepsIff` says exactly which failures keep it.
- kmod/sender.c:355 says that the drainer discards its buffer after a disconnection, and
  kmod/sender.c:511-516 that stale data are flushed before a reset. The send loop never looks: a reset
  in the middle of a send is followed by the rest of the buffer, which a fresh interpreter can
  misread (`Drainer.ResetInsidePacket`, and a run in which it does: `Resets.ResetBreaksRun`).
  `Drainer.ResetKeepsIff` says exactly when that does no harm.
- kmod/sender.c:720-723 takes the flags at the end of a send for those that were sent
  (`Drainer.FlagsAfterCycle`, `Sends.FlagsAtRestIff`).
- kmod/sender.c:783-784 says that the send buffer never overflows (`SizeBound.WorstFrameOverflows`).
- kmod/update.c:230-235 says that packets carry the current flags. The clear packet carries flags 0
  (`Drainer.FlagsAfterCycle`).
- kmod/update.c:86 says that all runs of the minimal length are found. That is so exactly for minimal
  lengths from 8 up (`RleScan.FindsAllRunsIff`). The branch of kmod/update.c:131 and the one of
  kmod/update.c:202 are never taken.
- fpga/r-ptr-empty.v:24 describes `avail` as "more than MIN_FREE space"; it is falsely low while the
  pointers straddle the wrap (`AsyncFifo.AvailExactly`).
- fpga/priveye.v:282 acknowledges once at the end of a dup payload, even of an image of no bytes,
  which takes no byte. That stray acknowledgement always comes before the reader can hold the next
  byte, so nothing is lost: `Refinement.WiresFollowInterpreter` needs no exception for such images.

## Model

| member | source | states |
|---|---|---|
| `Bytes.BitRevCrossesWires` | kmod/bitrev.h:18-24 | the three-step macro is the wire crossing of fpga/reverse.v: bit k becomes bit 7 - k |
| `Bytes.Rev8Twice` | kmod/bitrev.h:18-24 | reversing twice gives the byte back, so a bit-reversed frame loses nothing |
| `Words.LzbIsFirst` | kmod/update.c:40-40 | counting trailing zero bits and dividing by eight gives the index of the first nonzero byte of any nonzero word |
| `Words.TzbIsLast` | kmod/update.c:41-41 | counting leading zero bits gives the distance of the last nonzero byte from the end of the word |
| `Words.XorLoads` | kmod/update.c:61-68 | xor of two eight-byte loads: zero exactly when the bytes are equal, otherwise LZB and TZB locate the first and the last difference |
| `Words.XorSpread` | kmod/update.c:121-129 | xor of a load with eight copies of a byte: the counts of leading and trailing equal bytes |
| `Callback.NeverRefused` | kmod/update.h:200-206 | a callback that never refuses receives every result and the scan succeeds |
| `DiffScan.FindDiffs` | kmod/update.c:53-83 | for any buffers, gap and callback, the word-at-a-time scanner hands the callback exactly the regions that a byte-at-a-time reference finds, in order, and stops at the first refusal; it terminates |
| `DiffScan.RegionsAreTheDifferences` | kmod/update.c:53-83 | the regions are ordered and disjoint, start and end on a differing byte, are at least min(8, gap) bytes apart, and cover every differing byte of the scanned words |
| `DiffScan.SplitExactly` | kmod/update.c:71-82 | neighbouring differences lie in one region if and only if no whole equal word is between them and they are not in neighbouring words with at least the gap of equal bytes between them |
| `DiffScan.Extend` | kmod/update.c:71-77 | the inner loop closes a region exactly where the reference splits it, judging the gap by the trailing equal bytes of the previous word alone |
| `RleScan.FindRle` | kmod/update.c:97-216 | for every buffer and threshold the scanner reports exactly the segments of the byte-level reference, to any callback, and terminates because the word index strictly grows; two of its branches are dead |
| `RleScan.SegmentsAreTheKeptRuns` | kmod/update.c:85-96 | the segments partition the buffer in order; a repeated segment is exactly a maximal run that is long enough and, below eight bytes, holds the last byte of a word |
| `RleScan.SplitIsPartition` | kmod/update.c:186-213 | literals are exactly the gaps between the repeated segments, never two in a row, nothing empty |
| `RleScan.FindsAllRunsIff` | kmod/update.c:85-96 | "find ALL runs" holds for all buffers if and only if the threshold is at least 8, the driver's value |
| `Packets.InitDataFields` | kmod/update.h:180-198 | the header built for an address and a length below 32768 gives them back, with the command bits asked for |
| `Packets.WireFormat` | kmod/update.h:165-198 | the very bytes of a header on the wire: the command byte, the flags, the address high byte first, twice the length low byte first |
| `Packets.DecodeWire` | kmod/tests.c:31-84 | decoding undoes encoding of any well-formed packet, whatever bytes follow it |
| `Packets.DecodePrefix` | kmod/tests.c:25-84 | every proper prefix of a packet decodes to "need more data" |
| `Packets.DecodeStream` | kmod/tests.c:31-84 | repeated decoding of the concatenated wire bytes of any list of packets gives exactly that list and leaves nothing over |
| `Packets.PktApply` | kmod/tests.c:92-121 | applying a packet in place patches the framebuffer with the expanded, possibly reversed payload, or does nothing when it is out of bounds |
| `SendBuffer.Sender.BufEmit` | kmod/sender.c:786-824 | a packet is appended whole exactly when it is inside the framebuffer, the sender is enabled and online, and it fits; the buffer always is the wire image of its packets and never exceeds its size |
| `Encoder.EncoderState.EmitPacket` | kmod/update.c:221-248 | the running address advances, modulo 65536, and the new-frame mark is spent, exactly when the packet was accepted |
| `Encoder.EncoderState.RleEmit` | kmod/update.c:251-255 | ignoring the offset is harmless: the packet written at the running address is the one for that segment |
| `Encoder.EncoderState.EncodeRegion` | kmod/update.c:257-266 | refuses a region beyond the framebuffer without a trace; otherwise emits the packets of its segments, all or, without room, a proper prefix |
| `Encoder.EncoderState.DiffEmit` | kmod/update.c:276-290 | the overflow guard refuses exactly the regions beyond the framebuffer; the others are encoded from the new image |
| `Encoder.EncoderState.EncodeDiff` | kmod/update.c:292-307 | after aligning the range to words, the buffer receives exactly the packets of the differences, or a proper prefix if and only if they do not fit or the sender is disabled or offline |
| `EndToEnd.DiffConverts` | kmod/update.c:221-307 | the packets draw parts of the new image at strictly increasing, disjoint, in-bounds, nonempty addresses, hit every byte that changed, only the first can be marked new-frame, and there are none exactly when nothing changed |
| `EndToEnd.DiffRoundTrip` | kmod/update.c:292-307 | round trip: the reference decoder applied to the packets of any two frames turns the old one into the new one, both bit-reversed if the packets are marked so |
| `Cuts.DiffRedraws` | kmod/update.c:53-83 | the first packet of a difference starts on a byte that changed |
| `Cuts.WaitsIff` | fpga/priveye.v:237-285 | packets that break off after any number of bytes leave the interpreter waiting for a command exactly between packets or between the BOS command and the image command of one |
| `Cuts.CutShowsOldIff` | kmod/update.c:221-307 | a difference that breaks off at such a place leaves the old frame on the display if and only if at most the first BOS command is out; the flags arrive with its second byte |
| `EndToEnd.DecodersAgree` | kmod/tests.c:92-121 | fed byte by byte to the FPGA's interpreter, driver packets change the display memory as the reference decoder changes its framebuffer |
| `EndToEnd.EncodeDiffDrivesDevice` | kmod/update.c:221-307 | main theorem of the encoder: whatever modes, address and flags the device had, if it waits for a command and shows the old frame, the wire bytes of the difference make it show the new one, wait again, carry the flags, and touch nothing beyond the frame |
| `EndToEnd.DrawsAt` | kmod/update.c:221-248 | the same list read by index: consecutive packets do not overlap and only packet 0 can carry the new-frame mark |
| `CommandFsm.DataPacketEvents` | fpga/priveye.v:195-286 | whatever sticky modes the packets before it left, a data packet means one BOS sequence of flags and address and then the expanded payload, reversed if so marked; dup consumes one byte for all copies |
| `CommandFsm.DataPacket` | kmod/update.c:225-234 | the effect of a data packet on the display: flags set, memory patched at its own address, address one past its end |
| `CommandFsm.FlagsPacket` | kmod/update.h:165-173 | a flags-only packet sets the flags and clears the sticky modes, and changes neither memory nor address |
| `CommandFsm.LiteralPayload` | fpga/priveye.v:272-278 | a literal payload of n bytes consumes n bytes, in order |
| `CommandFsm.RepeatedPayload` | fpga/priveye.v:272-283 | a dup payload of n bytes consumes one byte and sends it n times |
| `CommandFsm.BosPayloadBytes` | fpga/priveye.v:142-150 | BOS payload bytes of any number are never repeated or reversed, whatever the modes |
| `CommandFsm.BosCountIs` | fpga/priveye.v:201-206 | the BOS byte count is 0, 1 or 3; code 2 means three as code 3 does |
| `SizeBound.SpanBound` | kmod/update.c:189-213 | a region of n bytes is encoded in s bytes with 9 s <= 14 n + 49 |
| `SizeBound.DiffBound` | kmod/update.c:292-307 | so is a whole difference, because regions are at least six equal bytes apart |
| `SizeBound.DiffFits` | kmod/sender.c:783-784 | so a difference of at most 21061 scanned bytes always fits the empty buffer of 32768 |
| `SizeBound.WorstFrameOverflows` | kmod/sender.c:783-784 | the bound is nearly reached: replacing a blank frame by runs of eight and single bytes takes 39200 bytes, more than the buffer holds, so "should never happen" is false |
| `Drainer.EncodeFrameKeeps` | kmod/sender.c:555-615 | on success the buffer leads from whatever the device shows (full refresh) or from the reference frame to the newest frame; on failure nothing is believed that was not true before |
| `Drainer.FrameArrives` | kmod/sender.c:578-587 | clear packet plus difference from zeros, or difference alone, arrives at the newest frame, with the flags of the encoding unless nothing but the clear packet was sent |
| `FrameMark.FirstIsMarked` | kmod/sender.c:578-587 | the first packet of a frame carries the new-frame mark, be it the clear packet or a difference, and no other packet does |
| `FrameMark.FrameWaitsOnce` | fpga/priveye.v:169-191 | from the driver to the gate: over every undisturbed run from rest to rest in which the controller reads exactly one frame, exactly one payload waits for a display cycle and starts then |
| `Drainer.WakeKeepsIff` | kmod/sender.c:658-723 | a wake-up keeps "the reference frame is what the device shows" if and only if it is harmless: a frame must not be skipped, and a flags-only packet must not make unequal private frames change places |
| `Drainer.ResetKeepsIff` | kmod/sender.c:348-375 | a reset of the FPGA, also in the middle of a send, keeps the invariant if and only if the rest of the buffer, read by a fresh interpreter, ends at a command start; between sends it always does |
| `Drainer.ResetBetweenPackets` | kmod/sender.c:348-375 | so a reset between two packets does no harm |
| `Drainer.ResetInsidePacket` | kmod/sender.c:348-375 | a reset with one even byte left breaks it, and the interpreter then takes the clear packet of the next full refresh for image bytes |
| `Resets.ResetBreaksRun` | kmod/sender.c:687-712 | such a run exists: a full refresh whose buffer is one byte longer than a chunk, the display unplugged after the first chunk, and the FPGA reset before the last byte |
| `Resets.ResetInsideHeaderIff` | kmod/sender.c:348-375 | a reset between the two commands of a packet is harmless if and only if the payload is literal, provided that a repeated one stands for more bytes than are left to send |
| `Sends.EveryRunIsCoherent` | kmod/sender.c:638-723 | over all interleavings of updates, flag changes, disconnections, resets, failing sends and drainer steps, excluding only the steps that break the invariant: at rest with nothing pending, the device shows the newest frame and the reference frame equals it |
| `Sends.StepKeepsIff` | kmod/sender.c:638-723 | each step of each thread keeps the cache invariant if and only if a condition on the state before it holds: on READY and the two private frames for wake-ups, on the cut position for failing sends, on the rest of the buffer for resets, none for all others |
| `Sends.FailKeepsIff` | kmod/sender.c:692-718 | a send that fails after any number of bytes keeps the invariant if and only if it stops at a command start and a full refresh is due, or the picture is still the reference frame's and an update is due or not needed |
| `Sends.LateErrorKeepsIff` | kmod/sender.c:702-718 | a transfer reported as failed after all its bytes arrived breaks the invariant unless a full refresh is due or the frames agree |
| `Sends.FirstByteStrands` | kmod/sender.c:702-709 | a failure one byte into the buffer breaks it even if a full refresh is due |
| `Delivers.ReconnectDelivers` | kmod/sender.c:399-441 | a display that is plugged in shows the newest frame after the next vertical blank, although nothing was drawn |
| `Delivers.ReconnectWhenOnline` | kmod/sender.c:405-407 | a READY edge while online changes nothing: a driver at rest stays at rest |
| `Delivers.DisconnectionDelivers` | kmod/sender.c:348-375 | so does one that was unplugged and is found again |
| `Delivers.PowerUpDelivers` | kmod/sender.c:1041-1062 | so does one that lost its picture while powered down |
| `Delivers.PowerUpWarm` | kmod/sender.c:1041-1062 | without such a loss, powering up asks for no full refresh and lets the next frame out |
| `Delivers.UpdateDelivers` | kmod/drm_p4_main.c:265-315 | an update while the display is enabled and online is shown after one undisturbed cycle, if its encoding fits |
| `Delivers.ClearGoesFirst` | kmod/drm_p4_main.c:265-303 | after enabling, a disconnection, a reconnection, a cold power-up or an update with a new framebuffer or rotation, the next frame begins with a clear packet |
| `Delivers.UnfitFrameStaysDue` | kmod/sender.c:608-614 | a frame whose encoding fails stays due, and the next attempt encodes the same packets |
| `Delivers.FlagsGoOut` | kmod/sender.c:661-672 | a change of flags at rest goes out with the next wake-up, faux or real, that has no frame to send: the device then holds the flags, the record agrees, and the picture is untouched |
| `Delivers.SilentWhenOff` | kmod/sender.c:50-66 | disabled, unplugged or taken offline between two sends, the driver puts nothing on the link in any run until it is told to |
| `Drainer.CycleDelivers` | kmod/sender.c:638-730 | one undisturbed cycle from any state of the invariant brings the newest frame to the display if its encoding fits |
| `Drainer.NoPackets` | kmod/sender.c:589-597 | nothing is encoded exactly when no full refresh is due and the newest frame equals the reference frame |
| `Drainer.SkippedFrameIsLost` | kmod/sender.c:674-681 | "next vsync will retry" is false: a frame skipped because READY is low leaves nothing pending and is never sent |
| `Drainer.SkippedRefreshIsLost` | kmod/sender.c:576-606 | a skipped full refresh leaves a blank reference frame, the old picture and no request; a blank update then sends nothing and leaves nothing pending |
| `Drainer.TimeoutIsSkip` | kmod/sender.c:692-700 | a READY time-out before the first chunk loses the frame in the same way |
| `Drainer.FlagsAfterCycle` | kmod/sender.c:720-723 | after a frame was sent, during which the flags may have changed, the recorded flags agree with the device if and only if they are those of the encoding, or 0 for a full refresh with a blank frame; otherwise no flags-only packet follows |
| `Sends.FlagsAtRestIff` | kmod/sender.c:720-723 | at rest, however many steps after a send that finished and that no reset cut into, with no other send ended and no reset since: the recorded flags agree with the device if and only if, when it finished, the flags were still those that went out, which for a full refresh with a blank frame are 0 |
| `Sends.HeldAtRest` | kmod/sender.c:687-723 | after failing sends and resets too, what was encoded and how far it got tells which flags the device holds |
| `Driver.P4.constructor` | kmod/sender.c:880-890 | probing resets the device, which takes it offline first, so the driver starts with blank frames and a full refresh due, and the cache invariant holds |
| `Driver.P4.SendClear` | kmod/sender.c:1084-1105 | emits the clear packet exactly when there is room |
| `Driver.P4.SendDiff` | kmod/sender.c:1064-1082 | emits the packets of the difference of two whole frames, or a proper prefix |
| `Driver.P4.EncodePackets` | kmod/sender.c:575-587 | the buffer holds exactly the packets of the frame, or encoding fails exactly when they do not fit or the sender is disabled or offline |
| `Driver.P4.EncodeFrame` | kmod/sender.c:555-615 | the code in place is the step of the state machine on every exit path |
| `Driver.P4.EncodeFlags` | kmod/sender.c:661-672 | a flags-only packet goes out only when nothing else does and the flags differ from those last sent |
| `Driver.P4.Prepare` | kmod/sender.c:654-681 | the first half of the drainer loop is the wake-up step of the state machine |
| `Driver.P4.SendChunk` | kmod/sender.c:688-711 | one attempt sends at most 4096 bytes, which the device takes in order; a failure discards the rest |
| `Driver.P4.SendBuffer` | kmod/sender.c:687-723 | the loop sends everything in chunks and then exchanges the private frames, or fails as the state machine says |
| `Driver.P4.Drain` | kmod/sender.c:638-730 | one turn of the loop, whatever the environment answers |
| `Driver.TurnIsRun` | kmod/sender.c:638-730 | a turn of the loop is a run of the state machine, however the environment answers: a wake-up, a chunk for each one accepted, and then the end, a READY time-out or an SPI error |
| `Driver.ChunkCount` | kmod/sender.c:688-690 | a send takes one chunk, and so one look at READY, for each 4096 bytes begun |
| `Driver.P4.UpdateRotated` | kmod/drm_p4_main.c:265-315 | an update in rotated mode leaves the rotation of the new picture in the accumulated frame, by damage clips or by full refresh: bit 7 - y % 8 of byte (719 - x) * 35 + y / 8 is pixel (x, y) of the 720 by 280 picture; the flags are as the state machine says |
| `Driver.SendLoopUndisturbed` | kmod/sender.c:687-712 | with every chunk accepted, the loop is the undisturbed send |
| `GrayCode.GrayAdjacent` | fpga/w-ptr-full.v:39-40 | codes of consecutive counts differ in exactly one bit |
| `GrayCode.GrayWraps` | fpga/w-ptr-full.v:39-40 | so do the codes of the last pointer value and of zero |
| `GrayCode.UngrayGray` | fpga/r-ptr-empty.v:72-76 | decoding undoes encoding at every width |
| `GrayCode.UngrayBits` | fpga/g2b.v:14-19 | bit i of the decoder is the exclusive-or of bits i and up |
| `GrayCode.SampleIsOldOrNew` | fpga/async-fifo.v:71-91 | a synchroniser that catches each line before or after its change gets the old pointer or the new one |
| `GrayCode.FullMeansOpposite` | fpga/w-ptr-full.v:42-50 | the full test on Gray codes holds exactly when the pointers are 2^ADDR_SIZE apart, for every width |
| `AsyncFifo.EveryRunIsAPrefix` | fpga/async-fifo.v:54-90 | from reset, under every interleaving of the two clocks with lagging, mid-change samples: what was delivered is a prefix of what was accepted, every other accepted byte is still in the memory, and they fit |
| `AsyncFifo.StepIsFaithful` | fpga/async-fifo.v:49-91 | every edge of either clock, or both at once, keeps the pointers, flags and contents consistent |
| `AsyncFifo.NoCollision` | fpga/async-fifo.v:52-66 | a byte is never written to the address that is read on the same edge |
| `AsyncFifo.FullSettles` | fpga/w-ptr-full.v:63-70 | three quiet write-clock edges make the full flag exact |
| `AsyncFifo.EmptySettles` | fpga/r-ptr-empty.v:61-70 | three quiet read-clock edges make the empty flag exact, and the room flag exact but for the wrap |
| `AsyncFifo.ReadCatchesUp` | fpga/r-ptr-empty.v:37-70 | while the host stands still, each read clock brings the empty flag one step nearer to exact, whether it reads or not; from the third on it is exact |
| `AsyncFifo.AvailExactly` | fpga/r-ptr-empty.v:72-76 | the 32-bit subtraction makes `avail` exact except that it is low while the write pointer has wrapped and the read pointer has not |
| `AsyncFifo.AsyncFifo.Edge` | fpga/async-fifo.v:52-91 | on a common edge the read port sees the memory as it was |
| `AsyncFifo.AsyncFifo.Run` | fpga/async-fifo.v:49-91 | the registers and the memory themselves, from reset through any plausible steps: what came out is a prefix of what was let in, the rest lies in the memory, and it fits |
| `FlowControl.NeverFull` | fpga/eye.v:161-167 | a host that sends at most 4096 bytes per observed DEV_RDY, with at most 30 bytes not yet counted at that moment, never raises the full flag, although the write side sees a read pointer two strobes old |
| `FlowControl.ReadyExactly` | fpga/eye.v:161-167 | once the flags are up to date, DEV_RDY is high exactly if fewer than 12256 of the 16384 bytes are taken, except while the pointers straddle the wrap |
| `HostPath.ChunkHasRoom` | kmod/sender.c:687-712 | what the drainer sends after one READY is never more than DEV_RDY promises room for |
| `HostPath.HostIsLegal` | fpga/eye.v:161-167 | a host that looks at DEV_RDY once before each such chunk keeps to the credit protocol and sends its chunks in order, however the clocks interleave |
| `FlowControl.EveryByteEnters` | fpga/eye.v:161-167 | so every byte written while enabled enters the FIFO |
| `FlowControl.TickIsRoomy` | fpga/r-ptr-empty.v:72-76 | the margin that each clock edge keeps |
| `SpiSlave.TransferIsExact` | fpga/spi_slave_async.v:23-41 | with chip select held, for byte sequences of any length and after any number of clocks: one strobe per eight clocks, with the byte sent, most significant bit first; in echo mode the master reads each byte one place late, after the stale transmit register |
| `SpiSlave.ByteComplete` | fpga/spi_slave_async.v:25-33 | the sentinel leaves the register with the eighth bit, and the register then is the byte |
| `SpiSlave.Transfer` | fpga/spi_slave_async.v:23-41 | the registers themselves, clocked by a master that shifts bytes out and in: the strobed bytes are exactly those sent, and in echo mode the master reads each of them one place late |
| `Transmitter.SerialIsFaithful` | fpga/tx.v:29-52 | from reset, whatever is offered when: a receiver on the wires gets exactly the latched bytes, whole and in order, but for one in flight |
| `Transmitter.EdgeSends` | fpga/tx.v:36-52 | one acknowledgement for each latched byte, sixteen clocks a byte, inputs ignored in between |
| `Transmitter.Transmit` | fpga/tx.v:29-52 | the registers themselves with a receiver on their wires: the receiver gets the acknowledged bytes whole and in order, but for one while the transmitter is busy |
| `PrivEye.EdgeIsSound` | fpga/priveye.v:202-289 | every clock edge keeps the handshakes, the BOS framing and the agreement of the registers with the byte-level interpreter |
| `PrivEye.Controller.Posedge` | fpga/priveye.v:60-289 | the registers together change as the refinement theorem assumes |
| `Refinement.WiresFollowInterpreter` | fpga/priveye.v:202-289 | from any state of rest, as after reset and any clocks offline, over every run without time-out or disconnection and for every byte stream: the wires carry a prefix of what the byte-level interpreter means by the bytes read, and at rest all of it |
| `Refinement.HeldByte` | fpga/eye.v:208-239 | conservation: each byte popped is consumed once; none is lost or used twice |
| `Refinement.EdgeMoves` | fpga/priveye.v:272-284 | one edge emits one byte per transmitter acknowledgement; literal bytes go out as they are consumed, copies of a dup byte before it is |
| `Wires.DisplayHears` | fpga/tx.v:36-52 | bit by bit: what a receiver on data, clock and BOS lines hears is that same stream |
| `Wires.SteadyLine` | fpga/priveye.v:262-286 | the BOS line never changes while a byte is being shifted out |
| `Throttle.AtMostOneByte` | fpga/priveye.v:272-278 | however long READY stays low, and with time-outs too: the transmitter takes at most one byte, and only one that was on offer before; at most one byte arrives, where the display can take two |
| `Wires.DisplayFollowsDevice` | fpga/priveye.v:202-289 | at rest the display is as feeding the bytes to the byte-level device leaves it |
| `Wires.ListenFromReset` | fpga/priveye.v:60-289 | the registers of the controller themselves, from reset through any number of clocks offline and then online, with a receiver on their pins: without time-out and disconnection it hears a prefix of what the interpreter makes of the bytes read, and at rest all of it |
| `Progress.NeverStalls` | fpga/priveye.v:237-285 | whatever the display does, a rank of at most 65 never rises between consumed bytes and emitted events, and falls on every clock on which READY is high, a waiting payload finds the gate open, and a reader that asks finds a byte or needs none |
| `Progress.WaitingStartsIff` | fpga/priveye.v:262-270 | a payload that waits starts exactly when the gate is open and, for a BOS payload, the display is ready |
| `Progress.OpeningStarts` | fpga/priveye.v:169-193 | so one that waits when a display cycle begins starts on the next clock |
| `Progress.ConsumedByGoodEdges` | fpga/priveye.v:237-285 | every stream, whether more comes after it or not, is consumed within a number of such clocks proportional to its length and meaning |
| `Progress.EveryByteIsConsumed` | fpga/priveye.v:159-285 | with a display that scans, every stream, whether more comes after it or not, is consumed within a number of display cycles proportional to its length and meaning; a cycle counts if on its first clock READY is high and the reader does not ask in vain for a byte of the stream |
| `Progress.EveryStreamEnds` | fpga/priveye.v:231-289 | a stream that ends and leaves no command unfinished brings the controller to rest, from anywhere in a run, within as many cycles and sixteen clocks more |
| `FrameGate.StartFollowsOpening` | fpga/priveye.v:176-184 | a new-frame image with bytes leaves OP_WAIT only on the edge directly after one where the cycle reopened or the display slept |
| `FrameGate.OneFramePerCycle` | fpga/priveye.v:169-193 | from reset, over all runs, time-outs and disconnections included: never more new-frame payload starts than such edges |
| `FrameGate.PayloadFitsWindow` | fpga/priveye.v:176-191 | any payload with bytes starts only right after an opening or when its whole byte count is smaller than the window, although the gate is computed one clock late |
| `FrameGate.WindowIsLastCycle` | fpga/priveye.v:159-191 | when a cycle begins, the window is the number of byte slots that went by in the cycle before, saturated |
| `FrameGate.WindowAfterSleep` | fpga/priveye.v:172-175 | after sleep the first window is 10000 bytes and the slots since, saturated at 32767 |
| `FrameGate.WindowAfterReset` | fpga/priveye.v:162-168 | so is the first window after reset |
| `FrameGate.PayloadFitsRest` | fpga/priveye.v:176-191 | within a cycle, a payload that starts without an opening right before it is smaller than what is left of the window after the slots that went by |
| `BosTiming.PulseWidth` | fpga/priveye.v:34-34 | over every undisturbed stretch, a BOS pulse, of no bytes too, is longer than BOS_T_TICKS clocks |
| `BosTiming.GapWidth` | fpga/priveye.v:35-35 | the line stays high for longer than NBOS_T_TICKS clocks between two pulses |
| `Refresh.ColdIff` | fpga/priveye.v:118-122 | from any state of rest with a zero counter, as after reset and any clocks offline, over every undisturbed run, `cold` is low exactly when 25200 image bytes have gone out with no BOS sequence in between |
| `Refresh.RefreshedIff` | fpga/counter.v:22-33 | the counter's end value recognises exactly the traces that contain such a stretch, and stays |
| `Refresh.ColdUntilRefreshed` | fpga/priveye.v:118-122 | from reset or any clock offline, over every run online, time-outs included: `cold` is low exactly if 25200 bytes were acknowledged with the BOS line high in between |
| `Refresh.StaysWarm` | fpga/counter.v:22-33 | once low, it stays low while the display is online, from any state |
| `Recovery.ResetOfflineRests` | fpga/priveye.v:113-116 | reset ends offline; after any number of clocks offline, none or many, the controller is at rest with the modes of the reset, cold and with the FIFO cleared |
| `Recovery.OfflineRecovers` | fpga/priveye.v:231-289 | after any run from reset, time-outs and disconnections included, 17 clocks offline bring the controller to a state of rest from which the theorems about runs start anew, cold and with the FIFO cleared |
| `Recovery.TimeoutResumes` | fpga/priveye.v:287-288 | a time-out or disconnection ends any operation; two clocks later the controller is in step with an interpreter that waited for a command with the modes then in the registers and has read the bytes taken since as commands; at most one byte of the operation that was cut off still goes out |
| `Recovery.WiresAfterTimeout` | fpga/priveye.v:231-289 | so after any run with time-outs and disconnections, once they stop: the wires carry a prefix of what the interpreter means by the bytes read since the last one, and at rest all of it |
| `Refresh.ClearPacketWarms` | kmod/sender.c:1084-1105 | one complete clear packet, anywhere in the stream, makes `cold` fall |
| `BytePath.DisplayHearsTheHost` | fpga/eye.v:88-145 | host, FIFO and controller together, clocks interleaving at will: the display hears a prefix of the meaning of the bytes the host sent, and after draining all of it |
| `BytePath.EverythingDrains` | fpga/eye.v:88-145 | and once the host stops, everything drains: three read clocks for the empty flag, display cycles in proportion to the bytes sent and their meaning, and sixteen clocks, unless the bytes leave a command unfinished |
| `BytePath.StepIsJoined` | fpga/eye.v:95-112 | what the controller popped is what the FIFO delivered, and what the FIFO accepted is what the host sent |
| `BytePath.FrameReachesDisplay` | kmod/sender.c:688-712 | from frame to wires, after any traffic that leaves the device waiting and showing the old frame: sending the encoded difference leaves the display showing the new one |
| `BytePath.FullRefreshReachesDisplay` | kmod/sender.c:576-587 | the first frame after a reset, with its clear packet, whatever the display showed before |
| `BytePath.DrainerReachesDisplay` | kmod/sender.c:638-730 | any run of the drainer between two resets, over FIFO, controller and wires: after draining, the display is the device of the drainer's state machine, and at rest with nothing pending it shows the newest frame |
| `HostPath.DrainerDrivesDisplay` | kmod/sender.c:687-712 | the drainer as the host, with one look at DEV_RDY before each chunk: at every moment the FIFO is not full and has accepted every byte, and after draining the display is the device of the state machine, at rest with the newest frame |
| `BitMatrix.TransposeCells` | kmod/rotation_ops.h:61-71 | the three delta swaps are the 8x8 transpose on every 64-bit word |
| `BitMatrix.BlockPixels` | kmod/rotation_ops.h:25-71 | gather, transpose, byte swap and scatter turn a block a quarter counter-clockwise and change the bit order |
| `BitMatrix.NeonRotate` | kmod/rotate_neon.c:51-65 | the vector code does to each lane what the scalar code does to its word |
| `Rotation.PixelsTurn` | kmod/rotation.c:32-44 | source pixel (x, y), least significant bit first, goes to column y of row 8 * blocks_x - 1 - x, most significant bit first |
| `Rotation.RotatesOnce` | kmod/rotate_neon.c:31-90 | the pixel description determines the destination, so scalar and vector code write the same bytes |
| `Rotation.RotateCcwScalar` | kmod/rotation.c:32-44 | every block of the range is turned and no other byte changes, for all strides and bases |
| `Rotation.RotateCcwNeon` | kmod/rotate_neon.c:31-90 | the same, two blocks at a time with an odd one left over |
| `Rotation.RotateBlocks` | kmod/rotation.c:51-65 | the same, whichever is chosen |
| `Rotation.ScatterRows` | kmod/rotation_ops.h:43-53 | the eight stores replace exactly the bytes of their block |
| `Rotation.GatherColumn` | kmod/rotation_ops.h:25-35 | the eight loads fetch the rows of the block |
| `Damage.ClipIsCallable` | kmod/drm_p4_main.c:97-111 | with the shifted source base every source and destination index is in bounds |
| `Damage.ClipPixel` | kmod/drm_p4_main.c:83-111 | pixels of the aligned clip become the picture's, all others stay |
| `Damage.ProcessClip` | kmod/drm_p4_main.c:42-112 | the same of the code, for clips of any shape |
| `Damage.AlignedCovers` | kmod/drm_p4_main.c:53-78 | aligning and clamping lose no pixel of the clip |
| `Damage.ProcessDamage` | kmod/drm_p4_main.c:304-311 | after the damage loop the pixels of all clips are the picture's |
| `Damage.DamageSuffices` | kmod/drm_p4_main.c:292-311 | clips that cover the changes lead from the rotation of the old picture to that of the new one |
| `Damage.OneRotation` | kmod/drm_p4_main.c:297-311 | there is only one such buffer, so incremental damage equals full recomputation |
| `Damage.Accumulate` | kmod/drm_p4_main.c:290-311 | either path of an update leaves the rotation of the picture |
| `Damage.ConvertToMono` | kmod/drm_p4_main.c:85-93 | a stand-in for the format conversion that fulfils the contract the driver's comment states |

## Left out

- Kernel plumbing: probe and remove, GPIO and IRQ registration, hotplug timers, sysfs, DRM boilerplate, suspend and resume, vertical-blank rate limiting, power flags. Their effect on the drainer's state appears as steps (enable, disable, power-up, offline, reset, reconnect).
- The exit of the drainer thread, and locking itself: each critical section is one step of the state machine.
- The scanners' callbacks are replayed after the scan in `Encoder`; they write nothing the scanners read.
- The big-endian variants of the byte-counting macros.
- Native-mode clips, whose comments assume a different contract of the unseen format conversion; the conversion itself is modelled only by the compact contract, and the picture is already black and white.
- Damage.ProcessClip: clip coordinates are natural numbers, as DRM clips inside a framebuffer are, and the framebuffer's sides are multiples of eight, as 720 by 280 is.
- Rotation.RotateCcwScalar: destination blocks that overlap, and a destination that aliases the source, are excluded, as no caller has them.
- Sends.EveryRunIsCoherent: excludes the steps that break the invariant, which `Sends.StepKeepsIff` characterises and which are exhibited separately.
- Sends.FlagsAtRestIff: excludes a send during which the FPGA was reset in the middle of the buffer; the flags are then read off the device, and a full refresh is due. After sends that failed, `Sends.HeldAtRest` says which flags the device holds.
- Drainer.Update: `p4_update` sets the native mode just before it takes the lock (kmod/drm_p4_main.c:266-270), so an encoding in between could use the new mode with the old reference; the model makes both one step.
- Refinement.WiresFollowInterpreter: excludes time-out and going offline, which `Recovery.WiresAfterTimeout`, `Recovery.OfflineRecovers`, `FrameGate.OneFramePerCycle`, `Throttle.AtMostOneByte` and `Refresh.ColdUntilRefreshed` include.
- The timers that derive online, sleep, reopening and time-out from the READY line are inputs of each clock edge of the controller. The status outputs frame, tear, vblank and idle, the lockup and reset logic, clock gating and the status lamp are not modelled.
- FlowControl.NeverFull: the bound of 30 uncounted bytes at the moment DEV_RDY is seen is an assumption about the SPI clock, not derived from frequencies.
- Electrical metastability: a synchroniser sample is a mix of old and new line values.
- AsyncFifo.EveryRunIsAPrefix: both domains are reset together, once, at the start of the run.
- The pattern generators, calibration and packet-dumping tools, LED, PCB and reset generator.

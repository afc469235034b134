# Factory provisioning: verified model

A Python host and a C device exchange packets over a UART. This project models the protocol both ends
implement, and the parts of the host that decide what is provisioned, and proves properties of them in
Dafny. `dafny verify dfyconfig.toml` checks everything.

| file | what it models |
|---|---|
| `Bytes`, `BitStrings` | bytes, big-endian codecs, bit strings |
| `Crc`, `CrcValues` | CRC-16-CCITT of both ends as a polynomial division, its linearity, burst detection and check values |
| `Frame` | the wire frame codec |
| `Fragmenter`, `Assembler` | the frame plan of a packet; host and device fragmenter and assembler as classes |
| `Reader` | finding frames in a byte stream |
| `Link` | the host's stop-and-wait send and receive loops |
| `StopAndWait` | both ends and a channel that loses, duplicates and reorders, as a step system |
| `SharedBuffer` | the same with the device as the sender, which writes again from the buffer it reads answers into |
| `DeviceRuns` | the device's assembler over whole runs of stored frames, through its wrap and its errors |
| `DeviceControl` | the device's ACK and NACK frames |
| `DeviceUart` | the device's UART loops, down to the bytes a failed read leaves behind |
| `DeviceReactions`, `DeviceLink` | the device's receiver rules; its wait, retry and receive loops over one shared frame buffer |
| `WireForms` | frames and session packets byte by byte |
| `Session`, `DeviceSession` | packet codecs of both ends, the host's client, the device's session life cycle |
| `EndToEnd`, `Handshake` | a message through all layers; how a session comes about |
| `DacPool` | the credential pool and its stat.json |
| `Provision` | the provisioning manager, its worker thread and its callers |
| `Base38`, `SetupPayload` | the onboarding codes of sections 5.1.3 and 5.1.4 of the Matter Core Specification |
| `SerialStream`, `LineSplitter` | the serial receive queue and the thermostat's line splitter |

Code that changes state in place is a class or a method with loops. Its contract ties it to a function of
the old state, and the properties over runs are lemmas about that function.

## Where the code does not do what one would expect

Each of these is proved, and with it the exact condition under which the expectation does hold.

- **Provisioning.** A stop command left over in the queue kills a later worker while a result waits
  (`UnguardedIsReachable`). The next worker overwrites the phase: conservation and coherence hold over an
  interleaving if and only if no worker begins while a result waits (`StepExact`, `RunExact`). The call to
  blame is the creation of a worker over a waiting result, and after it nothing can help (`DoomedExact`,
  `UnguardedIsFatal`); the next run may then overwrite the old result (`ResultLost`), which then no
  continuation reports or settles (`LostForever`). Workers that start on a queue without leftovers never get
  there (`FromTheStart`).
- **Device retry.** The device's transmit frame is also the buffer its wait reads into. A retry sends the
  frame if and only if nothing was read since it was built, or the last thing read was that very frame,
  whole or cut off before nothing but zeros (`RetryExact`). What it sends otherwise is a frame if and only
  if the last thing read was that frame, whole or so cut off (`RetryDecodes`): nothing after silence, an
  ignored answer after an answer, and the peer's own data frame in the last case (`RetryOutcomes`,
  `CutBeforeZeros`). To a host that sends nothing but answers this does no harm (`SharedSafe`), but it costs:
  the device can complete less, and exactly when is proved (`SharedCompletableExact`, `CostExact`). A host
  that sends data of its own may get it back and take it for the packet, with both ends reporting success
  (`EchoIsTaken`); the invariant is kept over a run if and only if no such foreign data frame is written
  (`RunExact`).
- **Lost last acknowledgement.** A receiver that has the packet stops acknowledging. Once its last
  acknowledgement is lost the sender can never find out (`LostAckIsFatal`, `LostAckIsReachable`); a waiting
  sender can complete if and only if one is still on the way (`LostAckExact`). For every other state, too,
  it is proved exactly when the transfer can still complete (`CompletableExact`).
- **Assemblers.** Host and device agree except at one point: after 255 CONSECUTIVE frames without finishing,
  the device's byte counter wraps (`AgreeStep`, `AgreeRun`, `WrapIsReachable`). No planned transfer gets
  there (`PlanNeverWraps`). What the device holds past the wrap is proved too (`DeviceSound`).
- **Receivers.** On a data frame too short for its sequence byte the host raises, while the device answers
  for number 0. At the wrap point the host acknowledges every numbered frame as a duplicate, while the device
  takes number 0 or refuses. In every state the receivers react alike if and only if the frame is a control
  frame or, before the wrap, has its sequence byte, or, at the wrap, is a SINGLE frame or a FIRST frame with
  a wrong number (`ReactsAlike`).
- **Frame header.** The CRC covers the payload only. A change of one header byte goes unnoticed if and only
  if it turns the type into another known type (`HeaderChangeExact`).
- **Answers.** The host takes an ACK or NACK of any length by its first payload byte and raises on an empty
  one; the device takes both for data. They draw the same conclusions if and only if the frame is a data
  frame or has a payload of one byte (`AnswersAlike`).
- **Device receive.** In an open session the device hands over any packet of its session's form whose type
  byte is not that of an alert or a bye, known or not (`DeviceHandsOverExact`), so a PC_HELLO too
  (`HelloReceivedAsMessage`). The host does not.
- **Credential pool.** A final status is never left if and only if the name has a file whenever the directory
  is read (`FinalExact`), and a used-up pair stays used up if and only if it is complete then
  (`ConsumedExact`); otherwise it is ready again later (`ForgottenWhenAway`). A pair in progress is ready
  again after a reload (`ProgressForgotten`).
- **Base38.** The decoder does not check a chunk for overflow: encoding undoes decoding if and only if the
  chunks fit (`EncodeDecode`).
- **Manual code.** A 21-digit code whose first digit is below 4 is accepted with its last ten digits before
  the check digit unread; an accepted code is printed again unchanged if and only if it is not such a one
  (`ManualCanonical`).

## Model

| member | source | states |
|---|---|---|
| Bytes.U16RoundTrip | device/src/factory_frame.h:51-91 | a 16-bit number written big-endian anywhere is read back |
| Bytes.U32RoundTrip | device/src/factory_frame.h:60-100 | the same for 32 bits |
| Bytes.U32Inverse | pc/src/frame/protocol.py:70-88 | reading four bytes and writing them gives the same four bytes |
| Crc.HostCrc16 | pc/src/frame/protocol.py:91-104 | the masked integer loop computes the CRC of the payload, which is what the rows below say of `Crc16` |
| Crc.DeviceCrc16 | device/src/factory_frame.c:5-23 | the 16-bit loop over a buffer computes the same, for all inputs |
| Crc.CrcIsBitSerial | pc/src/frame/protocol.py:91-104 | the byte-wise loop equals a register fed one bit at a time |
| Crc.CrcIsRemainder | pc/src/frame/protocol.py:91-104 | for every payload the CRC is the remainder of long division by x^16 + x^12 + x^5 + 1 of the payload with sixteen zeros behind it and its first sixteen bits complemented |
| CrcValues.CheckValues | device/src/factory_frame.c:5-23 | 0xFFFF for nothing, 0xE1F0 for a zero byte, 0x29B1 for the digits one to nine |
| Crc.FeedLinear | pc/src/frame/protocol.py:91-104 | the xor of two runs of the register is the run of the xor |
| Crc.DifferenceSurvives | pc/src/frame/protocol.py:97-103 | a difference inside a window of at most 16 bits never vanishes from the register |
| Crc.BurstChangesCrc | pc/src/frame/protocol.py:91-104 | two different payloads of any equal length that differ only in a window of at most 16 bits have different CRCs |
| Frames.DecodeEncode | pc/src/frame/frame.py:50-134 | decoding an encoded frame gives the frame |
| Frames.EncodeDecode | pc/src/frame/frame.py:102-134 | every accepted byte string is the encoding of what it decodes to |
| Frames.EncodeInjective | pc/src/frame/frame.py:50-60 | two frames with one wire form are one frame |
| Frames.CorruptedPayloadRejected | pc/src/frame/frame.py:129-132 | a payload hit by a burst of at most 16 bits under an intact header is a CRC error |
| Frames.HeaderChangeExact | pc/src/frame/frame.py:102-134 | a frame with one header byte changed is accepted if and only if the type became another known type, and then decodes to the same payload under that type |
| WireForms.FrameLayout | pc/src/frame/frame.py:50-60 | every byte of every frame: FA C0, the type's code, size and CRC high byte first, the payload |
| WireForms.AckOnTheWire | device/src/factory_frame.c:40-55 | the acknowledgement of number 0 is FA C0 F1 00 01 E1 F0 00 |
| WireForms.Numbers | pc/src/frame/frame.py:141-161 | the payloads of FIRST and CONSECUTIVE frames byte by byte, and which numbers cannot be built |
| Fragmenter.FrameCountExact | pc/src/frame/fragmenter.py:47-89 | 1 frame up to 505 bytes, otherwise 1 + ceil((size-500)/504); at most five for 2048 bytes |
| Fragmenter.FrameCountBounds | pc/src/frame/fragmenter.py:69-89 | the last chunk is the one that reaches the end; 256 frames suffice exactly up to 129020 bytes |
| Fragmenter.ChunksCover | pc/src/frame/fragmenter.py:61-89 | the chunks of the first frames, joined, are the prefix of the packet up to the next chunk |
| Fragmenter.FrameFragmenter.NextFrame | pc/src/frame/fragmenter.py:47-89 | each call hands out the next planned frame, or raises and leaves the state alone |
| Fragmenter.DrainHost | pc/src/frame/fragmenter.py:15-89 | the host emits its whole plan if and only if 1 <= size <= 129020; otherwise it stops after 256 frames |
| Fragmenter.SealFrame | device/src/factory_frame.c:285-333 | header fields written around a payload in place make the encoding of that frame |
| Fragmenter.DeviceFragmenter.Init | device/src/factory_frame.c:238-255 | which sizes are refused, and the fresh state otherwise |
| Fragmenter.DeviceFragmenter.Process | device/src/factory_frame.c:257-336 | the frame written and every field afterwards, including the byte counter's wrap and the latched error |
| Fragmenter.DeviceFragmenter.WriteFirst | device/src/factory_frame.c:285-307 | the payload bytes in the frame afterwards: size, sequence 0, first chunk |
| Fragmenter.DeviceFragmenter.WriteConsecutive | device/src/factory_frame.c:309-333 | the payload bytes in the frame afterwards: sequence and the chunk at the index |
| Fragmenter.DeviceFragmenter.ProcessOnPlan | device/src/factory_frame.c:257-336 | on a packet of at most 129020 bytes each call writes the planned frame's wire form and stays on the plan |
| Fragmenter.DeviceFollowsPlan | device/src/factory_frame.c:285-333 | the device's first 256 frames are the host's |
| Fragmenter.DrainPastWrap | device/src/factory_frame.c:257-336 | over 257 calls on a larger packet the device writes the 256 planned frames and then the FIRST frame again, where the host raises |
| Fragmenter.DrainDevice | device/src/factory_frame.c:238-336 | draining the device yields exactly the encodings of the host's plan |
| Assembler.FrameAssembler.Process | pc/src/frame/assembler.py:62-84 | one frame changes the fields as the acceptance rule says, or raises and changes nothing |
| Assembler.FrameAssembler.ProcessFirst | pc/src/frame/assembler.py:86-109 | the same for FIRST frames, error by error |
| Assembler.FrameAssembler.ProcessConsecutive | pc/src/frame/assembler.py:111-139 | the same for CONSECUTIVE frames |
| Assembler.RefusalsExact | pc/src/frame/assembler.py:62-139 | the host tells three kinds of refusal apart: unusable, out of turn, too large; and takes every other frame |
| Assembler.SingleTaken | device/src/factory_frame.c:153-163 | what both hold after a SINGLE frame |
| Assembler.AssemblySound | pc/src/frame/assembler.py:62-143 | after any accepted frames the state is told by them alone: a SINGLE payload, or the latest FIRST chunk and its numbered successors in order, within declared total and capacity, finished exactly at the declared length |
| Assembler.TransmissionAccepted | pc/src/frame/assembler.py:62-143 | conversely every well-numbered transmission that fits is accepted and yields its packet |
| Assembler.PlanPrefixState | pc/src/frame/assembler.py:62-139 | after k planned frames the assembly holds the packet's prefix, expects k, and is finished only at the last |
| Assembler.RoundTrip | pc/src/frame/assembler.py:62-143 | fragmenting and reassembling returns the packet; one that does not fit is refused at its first frame |
| Assembler.DeviceAssembler.Process | device/src/factory_frame.c:129-236 | on any stored bytes: return code, packet buffer and context afterwards |
| Assembler.DeviceAssembler.CheckHeader | device/src/factory_frame.c:138-152 | the first of bad magic, too long, bad CRC that applies to the stored bytes |
| Assembler.DeviceAssembler.StoreFirst | device/src/factory_frame.c:164-197 | the FIRST branch on the arrays, no write past the capacity |
| Assembler.DeviceAssembler.StoreConsecutive | device/src/factory_frame.c:199-231 | the CONSECUTIVE branch on the arrays |
| DeviceRuns.ToldStep | device/src/factory_frame.c:129-236 | one more accepted frame, at any count, keeps the context explained by the frames taken |
| DeviceRuns.DeviceSound | device/src/factory_frame.c:114-236 | over any run of calls on arbitrary stored bytes, through the wrap: the first t succeed and no later one; those t tell the context, never past declared total or capacity; a finished packet is a SINGLE payload or the latest FIRST chunk and its successors of exactly the declared size; then the error is latched and nothing changes |
| Assembler.DeviceRejectsBurst | device/src/factory_frame.c:144-152 | the device refuses every burst of at most 16 bits in a payload as a CRC mismatch |
| Assembler.AgreeStep | device/src/factory_frame.c:129-236 | host and device take or refuse a frame alike if and only if it is not the wrap point |
| Assembler.AgreeRun | device/src/factory_frame.c:129-236 | on any run of well-formed frames both take the same prefix if and only if no wrap point is met, and then hold the same bytes |
| Assembler.PlanNeverWraps | pc/src/frame/assembler.py:111-139 | a planned transfer never meets the wrap point, from any point of it |
| Assembler.WrapIsReachable | device/src/factory_frame.c:199-231 | a run that does meet it |
| Assembler.DeviceRoundTrip | device/src/factory_frame.c:129-236 | the device takes the host's whole plan and ends with the packet |
| Reader.ByteStream.ReadExact | pc/src/frame/link.py:182-220 | exactly the next bytes, or a timeout with the schedule used up; enough productive reads suffice |
| Reader.ByteStream.SkipToMagic | pc/src/frame/link.py:113-125 | stops behind the first magic pair, wherever short and empty reads fall |
| Reader.ByteStream.ReadFrame | pc/src/frame/link.py:113-138 | the result and the bytes consumed are the ones the stream determines, for every way it is split; any timeout means the deadline passed |
| Reader.ByteStream.ReadFrames | pc/src/frame/link.py:113-138 | over noise and frames in turn, successive reads return exactly the frames and leave nothing |
| Reader.ReadsUnique | pc/src/frame/link.py:113-138 | a stream determines the outcome of a read |
| Reader.ResyncExact | pc/src/frame/link.py:113-138 | the frame behind some noise is read, at its place, if and only if the noise shows no magic pair |
| Reader.NoisyRead | pc/src/frame/link.py:113-138 | behind noise that shows a magic pair, no read returns the frame and ends where it ends |
| Link.PlanSequence | pc/src/frame/frame.py:62-87 | the frames of one packet have distinct sequence numbers |
| Link.FrameLink.WaitFlowControl | pc/src/frame/link.py:157-180 | the first read that concerns the sequence decides; everything before is unrelated, its first data frame is kept; an error is a failed read, the end of the reads, or an answer without a sequence byte |
| Link.FrameLink.SendFrame | pc/src/frame/link.py:60-72 | identical copies, one per refusal; success on the acknowledgement naming the sequence, at once if it is the next read; an error is a refused write, no retry left, or a failed wait |
| Link.FrameLink.SendNext | pc/src/frame/link.py:58-72 | one turn of the loop: the next planned frame, its copies, the acknowledgement that ended it, or the reason it failed |
| Link.FrameLink.SendPacket | pc/src/frame/link.py:54-72 | it succeeds if and only if, frame by frame, the reads that come next are tolerable ones with fewer than retry_count refusals among them, then the acknowledgement, and the stream takes the copies; then one copy per refusal and one more of each planned frame went out in order; an error is that of the frame it stopped at, with its cause among the reads and writes left for that frame; a bound on all writes in every case |
| Link.SentUnique | pc/src/frame/link.py:60-72 | the reads determine how many copies of a frame go out and which read ends the loop |
| Link.FailedNotSent | pc/src/frame/link.py:60-72 | a retry loop that has a cause to fail cannot have succeeded on the same reads and writes |
| Link.NumberOfPlan | pc/src/frame/frame.py:62-87 | the number SendPacket waits for is the one the frame carries |
| Link.KeptExact | pc/src/frame/link.py:157-180 | what a wait keeps is the first data frame it saw, unless one was kept already |
| Link.ReactExact | pc/src/frame/link.py:83-102 | answers are ignored; a data frame without a number raises and is not answered; one the receiver has is acknowledged again; any other is acknowledged if taken and refused with its error if not |
| Link.FrameLink.LoadNextRxFrame | pc/src/frame/link.py:104-111 | a kept frame comes before the port's next |
| Link.FrameLink.HandleFrame | pc/src/frame/link.py:83-102 | reply, assembler and error of one received frame |
| Link.FrameLink.ReceivePacket | pc/src/frame/link.py:74-102 | a normal return has answered every frame read by the receiver's rules up to the finished assembly; an error is a failed read, a refused frame, or one reply too many for the stream |
| StopAndWait.ReactToPlan | pc/src/frame/link.py:74-102 | a receiver that has taken r frames acknowledges any planned frame up to r and takes only the r-th |
| StopAndWait.StepKeepsInv | pc/src/frame/link.py:54-102 | every step of either end and every loss, duplication or out-of-order delivery keeps the invariant |
| StopAndWait.RunKeepsInv | pc/src/frame/link.py:54-102 | so does every run |
| StopAndWait.StopAndWaitSafe | pc/src/frame/link.py:54-102 | over every run: a completed send means exactly the packet was returned; until then the receiver holds the prefix and is at the sender's frame or one ahead; nothing is ever refused |
| StopAndWait.CanComplete | pc/src/frame/link.py:54-102 | from every state with a write left and the receiver still there, first write or retry, the transfer can be completed in three steps a frame |
| StopAndWait.CompletableExact | pc/src/frame/link.py:54-102 | in every state of the invariant: some continuation completes the send if and only if it is done, or the receiver is there (or has returned with the acknowledgement of the frame on its way) and the sender has a write left, now or after a timeout, or hears of a frame or acknowledgement that is on its way |
| StopAndWait.OpenBefore | pc/src/frame/link.py:54-102 | no step of either end or of the channel opens a transfer that was not open |
| StopAndWait.ExchangeWorks | pc/src/frame/link.py:54-102 | one write, one delivery and one acknowledgement carry a frame across, even one the receiver has already |
| StopAndWait.DeviceTracksRun | device/src/factory_session.c:609-665 | the device as receiver of the same deliveries answers like the host's and holds the same, in every run |
| StopAndWait.DeviceStarts | device/src/factory_session.c:557-665 | so it does from its initialisation on |
| StopAndWait.LostStaysLost | pc/src/frame/link.py:74-102 | no step brings a lost last acknowledgement back |
| StopAndWait.LostAckIsFatal | pc/src/frame/link.py:74-102 | once the finished receiver's last acknowledgement is lost, no continuation completes the send, though the packet is delivered |
| StopAndWait.LostAckExact | pc/src/frame/link.py:54-102 | a waiting sender whose receiver has returned can still complete if and only if an acknowledgement of its frame is on the way |
| StopAndWait.LostAckIsReachable | pc/src/frame/link.py:74-102 | a run that loses it |
| StopAndWait.ChannelExact | pc/src/frame/link.py:54-102 | frames are conserved: each comes onto its way by a write, a reply or a duplication and leaves it by a loss, a delivery or a read |
| StopAndWait.AlwaysPossible | pc/src/frame/link.py:54-102 | what is on its way may be lost, duplicated or delivered, and each end may stop, whenever it works |
| StopAndWait.OddFrames | pc/src/frame/link.py:54-102 | what a refusal, an answer without a number, and a frame that is not taken do to either end, should they come |
| StopAndWait.GivesUp | pc/src/frame/link.py:54-72 | a sender that hears nothing gives up by itself, after exactly so many steps |
| SharedBuffer.Simulated | device/src/factory_session.c:562-607 | every step of the device but the writing of a data frame it is not on is, but for what the channel may do anyway, a step of a sender with a buffer of its own |
| SharedBuffer.StepExact | device/src/factory_session.c:562-607 | a step keeps the invariant if and only if it does not write a data frame that is neither the current one nor an earlier one of the packet |
| SharedBuffer.RunExact | device/src/factory_session.c:562-607 | over a run it is kept all along if and only if no step does |
| SharedBuffer.SafeUnlessForeign | device/src/factory_session.c:336-607 | whatever the host sends: a run without such a write is safe in the sense of StopAndWaitSafe |
| SharedBuffer.SharedSafe | device/src/factory_session.c:336-607 | with a host that sends nothing but answers every run is safe, whatever is lost, cut off, duplicated or reordered and however often the device writes from its shared buffer |
| SharedBuffer.SharedOpenBefore | device/src/factory_session.c:562-607 | no step opens a transfer that was not open to the device |
| SharedBuffer.SharedCompletableExact | device/src/factory_session.c:562-607 | with such a host: some continuation completes the send if and only if it is open: as for a buffer of its own, but a write left helps only while the buffer still holds the frame, or to wait again for what is on its way |
| SharedBuffer.CostExact | device/src/factory_session.c:562-607 | a sender with a buffer of its own could complete and the device cannot, if and only if writes are left and the receiver is there, but neither frame nor acknowledgement is on its way and the buffer no longer holds the frame |
| SharedBuffer.EchoIsTaken | device/src/factory_session.c:336-607 | a run of six steps after which both ends report success and the host holds the data frame it had sent itself |
| SharedBuffer.AttemptFollows | device/src/factory_session.c:580-603 | an attempt of the retry loop, as `SendFrame` is proved to make it, that read nothing but answers on their way and data of the host is a run of these steps: they succeed together, and otherwise leave the same in the buffer |
| SharedBuffer.StrayExact | device/src/factory_session.c:191-226 | a write, cut off or not, puts on its way the bytes that went out and nothing else |
| DeviceControl.ControlEncode | device/src/factory_frame.c:40-55 | the stored bytes are what the host decodes as that ACK or NACK |
| DeviceControl.ControlDecode | device/src/factory_frame.c:57-83 | succeeds exactly on the wire form of a one-byte ACK or NACK, and reads what it says; bad magic and bad CRC are told apart |
| DeviceControl.AnswersAlike | device/src/factory_session.c:364-380 | host and device conclude the same from a well-formed frame, whatever they wait for, if and only if it is a data frame or has one payload byte |
| DeviceControl.AnswersMean | device/src/factory_frame.c:40-55 | what the device builds as an ACK the host takes for an acknowledgement, and as a NACK for a refusal |
| DeviceControl.CorruptedAnswer | device/src/factory_frame.c:57-83 | an answer whose number was changed on the way is told from data by its CRC, and makes the sender write again |
| DeviceUart.Uart.ReadExact | device/src/factory_session.c:154-189 | the bytes got go into the buffer even if the read fails; it fails only if the turns it used end with the deadline, or with three driver errors and nothing read between them |
| DeviceUart.Uart.SkipToMagic | device/src/factory_session.c:237-269 | stops behind the first magic pair, whatever empty and failed reads fall in between |
| DeviceUart.Uart.ReadFrame | device/src/factory_session.c:228-292 | every byte taken off the line is accounted for, and the storage holds the part of a frame that was read, zeros behind it, whole exactly on success |
| DeviceUart.Uart.WriteExact | device/src/factory_session.c:191-226 | a beginning of the data goes out, all of it exactly on success; it fails only on the same causes |
| DeviceReactions.ReactsAlike | device/src/factory_session.c:609-665 | in every unfinished state, the wrap included: host and device react alike to a well-formed frame if and only if it is a control frame, or before the wrap has its sequence byte, or at the wrap is a SINGLE frame or a FIRST frame with a wrong number |
| DeviceReactions.CodesExact | device/src/factory_session.c:626-657 | one code exactly for unknown types, one exactly for refused frames, which get a NACK and fail the assembler; a frame was taken exactly if the assembler holds something new |
| DeviceLink.DeviceLink.WaitFlowControl | device/src/factory_session.c:336-386 | return code, kept frame and what is left in the shared buffer follow from what was read: all but the last read concern another frame, one read per turn with time left; a failed read has its cause in an oversized header or the turns used, and a timeout a closed window |
| DeviceLink.KeptRawExact | device/src/factory_session.c:364-372 | what the wait keeps is the first whole frame that is no answer, unless one was kept already |
| DeviceLink.DeviceLink.WriteFrame | device/src/factory_session.c:309-321 | what goes out is what the buffer holds, or a beginning of it, or nothing if its size field is too large |
| DeviceLink.DeviceLink.SendFrame | device/src/factory_session.c:580-603 | at most three attempts, each writing what the previous wait left in the buffer, and each starting where the last one ended; a write fails only on an oversized size field or a UART cause, and is tried again without a wait; success is the last attempt's acknowledgement, failure takes all three |
| DeviceLink.DeviceLink.SendCurrentPacket | device/src/factory_session.c:562-607 | every planned frame in order, each from a buffer that holds exactly it when its first attempt starts, each acknowledged before the next; an error only after three attempts of one frame, each failed for a cause; with a prompt UART, time left and the acknowledgements next on the line behind quiet noise, it succeeds with one attempt a frame |
| DeviceLink.WaitSucceeds | device/src/factory_session.c:336-386 | any wait as above, on such a line, ends with one read, the acknowledgement |
| DeviceLink.AttemptSucceeds | device/src/factory_session.c:580-603 | any attempt as above from a sendable buffer, in such a world, succeeds, and leaves such a world for the next frame |
| DeviceLink.SmoothSend | device/src/factory_session.c:562-607 | so any send as above is complete, with one attempt a frame, and what follows the acknowledgements is left on the line |
| DeviceLink.StoredExact | device/src/factory_session.c:309-321 | what a read left behind goes out as a given frame if and only if it is that frame cut off before nothing but zeros |
| DeviceLink.RetryExact | device/src/factory_session.c:562-607 | an attempt whose write goes through sends the frame if and only if nothing was read before it or the last thing read was that frame, so cut off or whole |
| DeviceLink.RetryDecodes | device/src/factory_session.c:562-607 | a retry is a given frame to its reader if and only if the last thing read was that frame, so cut off or whole |
| DeviceLink.RetryOutcomes | device/src/factory_session.c:562-607 | undecodable after silence, ignored after an answer, taken for data after a cut-off data frame |
| DeviceLink.CutBeforeZeros | device/src/factory_session.c:228-292 | any frame whose payload ends in zeros can be cut off there by a failed read |
| DeviceLink.DeviceLink.SendFlowControl | device/src/factory_session.c:323-334 | the reply goes out, or a beginning of it |
| DeviceLink.DeviceLink.HandleFrame | device/src/factory_session.c:626-657 | reply, assembler and return code for any whole frame in the buffer |
| DeviceLink.DeviceLink.LoadNext | device/src/factory_session.c:294-307 | the kept frame comes first, otherwise one read off the line |
| DeviceLink.DeviceLink.ReceiveOnePacket | device/src/factory_session.c:609-665 | a normal return has reacted to every loaded frame by the rules and ends with a finished assembly; every other return has its cause |
| Session.DecodeEncode | pc/src/session/packet.py:65-128 | decoding an encoded packet gives the packet, for both header forms |
| Session.EncodeDecode | pc/src/session/packet.py:76-128 | every accepted byte string is the encoding of what it decodes to |
| Session.EncodeInjective | pc/src/session/packet.py:65-73 | no two packets share a wire form, across both header forms |
| WireForms.PacketLayout | pc/src/session/packet.py:65-73 | every byte of every packet: version, the type's code, flag, session id if the type has one, size, payload |
| Session.HellosUnderstood | pc/src/session/protocol.py:103-136 | each end reads from the other's hello what was put in |
| Session.ParsersAgree | device/src/factory_session.c:388-435 | the device accepts what the host accepts and sees the same in it, except that it takes unknown types |
| Session.BuildersAgree | device/src/factory_session.c:485-530 | what the device builds is what the host encodes |
| Session.DeviceMatchesId | device/src/factory_session.c:388-435 | with a session match required, a session packet is taken if and only if it carries the device's own id |
| Session.ParserCodes | device/src/factory_session.c:388-435 | the parser's return code names the first defect of the packet, and there is none exactly if it accepts |
| Session.BuilderCodes | device/src/factory_session.c:437-530 | the return codes of the device's builders and of its reader of the host's hello |
| Session.HostErrors | pc/src/session/packet.py:30-46 | exactly when the host's constructors raise an argument error, and its readers a protocol error |
| Session.DeliversOwnMessages | pc/src/session/client.py:144-195 | a payload is delivered if and only if the bytes are a MESSAGE of this session with it |
| Session.JudgeExact | pc/src/session/client.py:144-195 | the peer has closed if and only if the bytes are a bye of either end with the session's id, and has alerted with a reason if and only if they are an alert of either end with that payload |
| Session.EndsExact | pc/src/session/client.py:144-195 | the packets that end a session are exactly its byes and all alerts |
| Session.GreetingExact | pc/src/session/client.py:52-104 | a greeting is taken if and only if it is the encoding of a DEVICE_HELLO for this uuid without authentication |
| Session.GreetingRefused | pc/src/session/client.py:52-104 | an alert is passed on with its reason, if and only if the bytes are one; no packet is a violation; any other packet, and a hello that wants authentication, means no session |
| Session.FactorySessionClient.Open | pc/src/session/client.py:52-104 | it succeeds exactly if the first packet is such a greeting and the PC_HELLO goes out, and then the state is that session; otherwise the error is the greeting's or the send's and the client is closed |
| Session.FactorySessionClient.Close | pc/src/session/client.py:106-125 | the session ends in any case; the goodbye is sent exactly if there was a session and the link takes it |
| Session.FactorySessionClient.SendMessage | pc/src/session/client.py:127-142 | in an open session it succeeds exactly if the payload's size fits 32 bits and the link takes it, and then the session's MESSAGE went out; otherwise the session ends |
| Session.FactorySessionClient.ReceiveMessage | pc/src/session/client.py:144-195 | the result and the state for every kind of inbound packet or link error; among packets, exactly the byes of this session and the alerts end it |
| DeviceSession.DeviceSession.Open | device/src/factory_session.c:741-767 | the loops and calls come to what OpenExact says of `OpenCall` |
| DeviceSession.DeviceSession.Receive | device/src/factory_session.c:797-840 | the call comes to what ReceiveExact, ReceiveRefusals and DeviceHandsOverExact say of `ReceiveCall` |
| DeviceSession.DeviceSession.WaitPcHello | device/src/factory_session.c:692-731 | the wait loop comes to what AwaitExact says of `AwaitHello` |
| DeviceSession.DeviceSession.Send | device/src/factory_session.c:780-795 | the call comes to what SendExact says of `SendCall` |
| DeviceSession.DeviceSession.Close | device/src/factory_session.c:769-778 | the call comes to what CloseExact says of `CloseCall` |
| DeviceSession.AwaitHelloQuiet | device/src/factory_session.c:692-731 | waiting notifies nobody, and an id is recorded exactly on success |
| DeviceSession.AwaitExact | device/src/factory_session.c:692-731 | over every list of things received: the first hello, alert or failed link decides, told apart by the code; a hello with an id records this id and nothing else changes; without one, time runs out |
| DeviceSession.AwaitSucceedsExact | device/src/factory_session.c:692-731 | waiting succeeds with an id if and only if the first to decide is a hello that carries it |
| DeviceSession.OpenExact | device/src/factory_session.c:681-767 | opening succeeds with an id if and only if the greeting goes out and the first to decide carries this id; then the session is that one, and the greeting went out; otherwise it is closed with an error notified |
| DeviceSession.OpenTwice | device/src/factory_session.c:741-745 | an open session is left as it is |
| DeviceSession.ReceiveExact | device/src/factory_session.c:797-840 | of all raw packets exactly the alerts and the byes of this session end it, told apart by the code; one is refused exactly if the device's builder makes it in no way, or its payload does not fit |
| DeviceSession.ReceiveRefusals | device/src/factory_session.c:797-815 | without a session nothing is received; a failing link is an error that leaves the session open |
| DeviceSession.SendExact | device/src/factory_session.c:780-795 | sending succeeds if and only if a session is open, the data has at most 2025 bytes and the link works; what goes out is what the host delivers as this data |
| DeviceSession.CloseExact | device/src/factory_session.c:769-778 | closing ends the session in every case; the goodbye is what the host takes for the end of this session |
| DeviceSession.StepConsistent | device/src/factory_session.c:733-840 | every API call keeps open and has-id equal and the notifications alternating |
| DeviceSession.LifecycleSafe | device/src/factory_session.c:733-840 | over every call sequence after an initialisation OPENED and CLOSED strictly alternate, starting with OPENED, the session is open exactly after an OPENED, and has an id exactly when open and sixteen zeros otherwise; an error that shows was notified |
| DeviceSession.DeviceHandsOverExact | device/src/factory_session.c:797-840 | for any raw bytes: data is handed over if and only if they are what the device's builder makes of it in this session, for any type byte but alerts and byes, and it fits |
| DeviceSession.HelloReceivedAsMessage | device/src/factory_session.c:797-840 | a PC_HELLO does, while the host would call the same packet a violation |
| EndToEnd.DevicePacketDelivers | device/src/factory_session.c:485-530 | the host delivers the payload of every message packet the device builds in its session |
| EndToEnd.DeviceToHost | device/src/factory_session.c:485-555 | build, fragment, wire with noise, any stream splitting, `receive_packet`, `receive_message`: the same payload or a timeout; never a timeout with enough productive reads |
| EndToEnd.HostReceives | pc/src/frame/link.py:74-102 | the host's `receive_packet`, given a plan's frames and able to answer them, returns the packet |
| EndToEnd.PlanReacts | pc/src/frame/link.py:74-102 | the host's receiver answers each planned frame once, refuses none, and is finished exactly after the last |
| EndToEnd.PlanReactsOnDevice | device/src/factory_session.c:609-665 | the device's receiver holds the same after each planned frame and goes on |
| EndToEnd.LineHeard | device/src/factory_session.c:228-292 | whole frames read off a line of frames with quiet noise are its first frames, and the rest is left |
| EndToEnd.DeviceReceives | device/src/factory_session.c:609-665 | the device's receive loop on such a line returns the packet or nothing, and the packet if the UART moves something every turn for long enough |
| EndToEnd.HostToDevice | pc/src/session/client.py:127-142 | `send_message`, the host's fragments, wire with noise, the device's UART and receive loop, its session check: the same payload or nothing, and not nothing under the same condition |
| Handshake.HelloIsGreeting | device/src/factory_session.c:681-690 | the device's greeting without authentication is what the host's client takes, for every uuid |
| Handshake.OpenBoth | pc/src/session/client.py:52-104 | both ends opened on each other's packets, with anything that decides nothing received before: both hold one session under the host's id, and the host knows the uuid |
| Handshake.FirstMessage | pc/src/session/client.py:52-142 | after it a first message of the host goes through all layers and arrives as what it was, or not at all, and does arrive under the condition of HostToDevice |
| DacPool.DacCredentialPoolStore.Load | pc/src/storage/dac_pool_store.py:112-190 | the scan gives every name its status from files and stat.json, and stat.json is rewritten to match |
| DacPool.LoadExact | pc/src/storage/dac_pool_store.py:112-190 | after a load that succeeds, for every name: known exactly if in the directory; ready exactly if complete and not final before; used up exactly if complete and used up before; never in progress |
| DacPool.LoadSucceedsExact | pc/src/storage/dac_pool_store.py:112-190 | a load succeeds if and only if there is a complete pair; otherwise nothing is known and stat.json is left alone, or created empty |
| DacPool.DacCredentialPoolStore.GetMaterial | pc/src/storage/dac_pool_store.py:192-232 | the least usable name is handed out; the names before it are dropped or marked; every change is on disk |
| DacPool.DacCredentialPoolStore.SetMaterialState | pc/src/storage/dac_pool_store.py:234-260 | only a pair in progress changes, in memory and on disk |
| DacPool.DacCredentialPoolStore.Inventory | pc/src/storage/dac_pool_store.py:262-291 | every count is the number of names with that status |
| DacPool.InventoryAddsUp | pc/src/storage/dac_pool_store.py:262-291 | the four counts make up the total |
| DacPool.GetDetails | pc/src/storage/dac_pool_store.py:192-232 | a request turns one ready pair into the pair in progress, leaves every other status that is not ready alone, and keeps disk and memory equal |
| DacPool.RequestExact | pc/src/storage/dac_pool_store.py:192-232 | what a request does to each ready pair: untouched if a usable one comes before it; otherwise handed out, put in error, or dropped, exactly if it is usable, cannot be loaded, or is incomplete |
| DacPool.RefusalsExact | pc/src/storage/dac_pool_store.py:192-260 | exactly when requests and reports are refused, with which error, and that they then change nothing; a report changes one name |
| DacPool.FreshStoreSafe | pc/src/storage/dac_pool_store.py:83-190 | a process start over any directory and any stat.json begins safely, with every final name of stat.json remembered |
| DacPool.FinalStep | pc/src/storage/dac_pool_store.py:112-260 | one operation leaves a final status, or a used-up one, exactly if it reads a directory in which the name has no file, or is incomplete |
| DacPool.FinalExact | pc/src/storage/dac_pool_store.py:112-260 | over every run a final status, reported or found in stat.json, is never left if and only if the name has a file whenever the directory is read |
| DacPool.ConsumedExact | pc/src/storage/dac_pool_store.py:112-260 | over every run a used-up pair stays used up if and only if it is complete whenever the directory is read |
| DacPool.ReadyStep | pc/src/storage/dac_pool_store.py:112-260 | an operation leaves a ready pair ready exactly if it neither reads a directory in which it is incomplete nor is a request that looks at it |
| DacPool.ReadyExact | pc/src/storage/dac_pool_store.py:112-260 | over every run a ready pair stays ready if and only if no operation does |
| DacPool.RequestedOrBroken | pc/src/storage/dac_pool_store.py:192-232 | a request that looks at a complete pair hands it out or puts it in error |
| DacPool.RestartsHarmless | pc/src/storage/dac_pool_store.py:83-190 | any number of restarts, loads, reports and directory changes leave it ready while it is complete |
| DacPool.ReportIsFinal | pc/src/storage/dac_pool_store.py:234-260 | a report that is taken makes a status final that was not, used up exactly if successful |
| DacPool.ApplySafe | pc/src/storage/dac_pool_store.py:112-260 | every operation keeps: at most one in progress, stat.json equal to memory, the final names all those that ever were; and hands out no name that was ever final or was handed out since the last load |
| DacPool.RunSafe | pc/src/storage/dac_pool_store.py:112-260 | so does every run of loads, restarts, requests and reports |
| DacPool.NeverTwice | pc/src/storage/dac_pool_store.py:192-232 | after any such run no pair is handed out that was ever used up or in error, before the run or during it, and none twice without a reload |
| DacPool.FinalIffStillThere | pc/src/storage/dac_pool_store.py:155-178 | a load keeps a final status if and only if the name still has a file |
| DacPool.ForgottenWhenAway | pc/src/storage/dac_pool_store.py:155-178 | otherwise the pair becomes ready again |
| DacPool.ProgressForgotten | pc/src/storage/dac_pool_store.py:171-178 | a pair in progress is ready again after a reload or a restart |
| Provision.StepExact | pc/src/provision/manager.py:106-273 | a step keeps conservation and coherence if and only if it is not a worker that begins while a result waits |
| Provision.RunExact | pc/src/provision/manager.py:106-273 | they hold all along an interleaving if and only if no worker in it begins while a result waits |
| Provision.DoomedExact | pc/src/provision/manager.py:137-183 | a step leads to a created worker with a result waiting if and only if it is the unguarded creation, and only the worker's beginning leads out of there |
| Provision.UnguardedIsFatal | pc/src/provision/manager.py:137-183 | after an unguarded creation, whatever happens, they hold on exactly until the new worker begins |
| Provision.ReadinessHarmless | pc/src/provision/manager.py:252-273 | a readiness change touches nothing but the readiness while a run is in progress or waiting |
| Provision.NoOverlap | pc/src/provision/manager.py:195-215 | a run starts only when every earlier run is settled |
| Provision.CleanRunSafe | pc/src/provision/manager.py:106-253 | workers started on queues without leftover stops keep conservation and coherence over every interleaving |
| Provision.FromTheStart | pc/src/provision/manager.py:106-273 | for every interleaving from a fresh manager: both hold all along if and only if no worker begins while a result waits, and with clean starts they do |
| Provision.UnguardedIsReachable | pc/src/provision/manager.py:106-193 | an interleaving, sound all along, that leads to the bad creation |
| Provision.ResultLost | pc/src/provision/manager.py:181-253 | what follows from it: a result overwritten, and its run lost |
| Provision.LostForever | pc/src/provision/manager.py:106-253 | a lost run stays lost over every continuation: its result is never pending, reported or settled again |
| Provision.FinishWorks | pc/src/provision/manager.py:121-253 | from every waiting state with the worker at work, whatever start commands are queued: finish() leads to the report and settlement of this run, and to an idle or startable station |
| Provision.StartWorks | pc/src/provision/manager.py:115-215 | from every startable state with the worker at work, whatever finish commands are queued: start() leads to a run in progress |
| Provision.RunWaits | pc/src/provision/manager.py:217-226 | a run can end with either outcome, which then waits |
| Provision.ActivateWorks | pc/src/provision/manager.py:106-113 | activate() leaves a worker there, and the phase following the readiness unless a run or a result prevents it |
| Provision.RefreshExact | pc/src/provision/manager.py:256-273 | a readiness poll changes the readiness, and the phase exactly while idle or startable |
| Provision.EmptyTurn | pc/src/provision/manager.py:185-193 | a turn of the loop without a command is such a poll |
| Provision.FreshIsIdle | pc/src/provision/manager.py:181-183 | without a poll a fresh station is idle |
| Provision.StopWorks | pc/src/provision/manager.py:127-135 | stop() gets through from every good state but the doomed one, wherever the worker is: stopped, with every run settled |
| Provision.StopDiscards | pc/src/provision/manager.py:127-135 | with the worker in its loop it discards what waits and settles nothing else |
| Provision.CyclesWork | pc/src/provision/manager.py:115-253 | any number of runs with any outcomes can follow one another, each finalised in order |
| Provision.WholeLife | pc/src/provision/manager.py:106-253 | so from a fresh manager once a ready station is activated |
| Provision.CleanStep | pc/src/provision/manager.py:106-253 | with clean starts the worker leaves only when it is being stopped, so the bad creation cannot happen |
| Provision.ProvisionManager.EnsureWorkerStarted | pc/src/provision/manager.py:137-148 | performs exactly the creation step the theorems are about, and nothing if a worker is alive |
| Provision.ProvisionManager.RefreshDispatcherReady | pc/src/provision/manager.py:256-273 | performs exactly one readiness step, and reports whether the readiness changed |
| Provision.ProvisionManager.Activate | pc/src/provision/manager.py:106-113 | without interference, exactly three steps of the interleaving model |
| Provision.ProvisionManager.Start | pc/src/provision/manager.py:115-119 | a start command is queued if and only if the readiness changed or the station is startable after the refresh |
| Provision.ProvisionManager.SignalStop | pc/src/provision/manager.py:128-130 | without interference, exactly the two steps of `stop()` before its join |
| Provision.ProvisionManager.ClearAfterStop | pc/src/provision/manager.py:132-133 | exactly the step after the join; a pending result is discarded |
| Provision.ProvisionManager.WorkerCheck | pc/src/provision/manager.py:185 | the loop condition is one enabled step: leave, or wait for a command |
| Provision.ProvisionManager.WorkerTurn | pc/src/provision/manager.py:186-213 | every body of the loop is enabled steps: one command taken, or none and a readiness step |
| Provision.ProvisionManager.StoreResult | pc/src/provision/manager.py:217-226 | exactly the step that ends a run and leaves its result pending |
| Provision.ProvisionManager.FinishReport | pc/src/provision/manager.py:246-248 | exactly the step that settles the reported run |
| Provision.ProvisionManager.FinishRun | pc/src/provision/manager.py:121-125 | a finish command is queued exactly while a result waits |
| Provision.ProvisionManager.BeginWorker | pc/src/provision/manager.py:182 | exactly the step that sets the phase without looking at it |
| Base38.CodesExact | pc/src/chip/Base38.py:20-63 | the alphabet is the digits, the capital letters, hyphen and full stop, in this order |
| Base38.DecodeEncode | pc/src/chip/Base38.py:66-108 | decoding undoes encoding for every byte string |
| Base38.EncodedLength | pc/src/chip/Base38.py:66-86 | five characters for three bytes, plus 0, 2 or 4 |
| Base38.EncodeDecode | pc/src/chip/Base38.py:89-108 | encoding undoes decoding if and only if every chunk's value fits its bytes |
| Base38.ChunkFaults | pc/src/chip/Base38.py:89-108 | a chunk stands for no bytes exactly if it has a character outside the alphabet or else an impossible length |
| Base38.Encode | pc/src/chip/Base38.py:66-86 | the nested loops compute the encoding |
| Base38.ChunkValue | pc/src/chip/Base38.py:66-78 | the weighted loop computes the little-endian value of the chunk |
| Base38.ChunkText | pc/src/chip/Base38.py:79-85 | the division loop writes the base-38 digits, least significant first |
| Base38.Decode | pc/src/chip/Base38.py:89-108 | the nested loops compute the decoding, and fail exactly on texts without one |
| Base38.ChunkBytes | pc/src/chip/Base38.py:89-108 | bytes, unknown character or impossible length, for each chunk of text |
| SetupPayload.QrFields | pc/src/chip/SetupPayload.py:42-51 | each field sits at its place among the 88 bits |
| SetupPayload.QrRoundTrip | pc/src/chip/SetupPayload.py:124-190 | for every payload object: when a text is generated, that it has 22 characters, and that parsing it gives back every field |
| SetupPayload.QrTextExact | pc/src/chip/SetupPayload.py:40-51 | the text is MT: and the base-38 form of the eleven little-endian bytes of one number, in which the fields follow one another from the lowest bits up |
| SetupPayload.QrExample | pc/src/chip/SetupPayload.py:124-127 | a known payload gives the known text MT:Y.K9042C00KA0648G00 |
| SetupPayload.FixedWidth | pc/src/chip/SetupPayload.py:140-157 | a chunk is written with exactly its width and read back |
| SetupPayload.ManualChunks | pc/src/chip/SetupPayload.py:129-150 | the first digit is below 8 and tells whether vid and pid follow; each chunk restores its bits |
| SetupPayload.ManualFields | pc/src/chip/SetupPayload.py:28-38 | each field sits at its place among the 72 bits |
| SetupPayload.ManualRoundTrip | pc/src/chip/SetupPayload.py:112-219 | 11 or 21 digits; parsing gives back short discriminator and pincode, and vid and pid when the flow is not Standard |
| SetupPayload.ManualCanonical | pc/src/chip/SetupPayload.py:192-219 | exactly which accepted codes the generator prints again |
| SetupPayload.CodesAgree | pc/src/chip/SetupPayload.py:60-79 | both codes of a constructed payload, read back, give the same pincode, vid and pid, and a short discriminator that is the upper four of the twelve bits of the long one |
| SetupPayload.ManualExample | pc/src/chip/SetupPayload.py:129-160 | the same known payload gives 3497011233 and the check digit |
| SetupPayload.ManualExact | pc/src/chip/SetupPayload.py:192-219 | for every text: None, an exception or a payload, told from its length, digits and chunk numbers; the payload in terms of these numbers, the discriminator straddling two of them |
| SetupPayload.ParseManualCode | pc/src/chip/SetupPayload.py:192-219 | the parser's steps come to that |
| SerialStream.SerialStream.DataReceived | pc/src/stream/serial.py:40-42 | arrivals go to the end of the flat queue; empty ones are not queued |
| SerialStream.SerialStream.Read | pc/src/stream/serial.py:176-223 | returned bytes and kept bytes are the bytes pending and arriving, in order; when fewer than asked for are returned; without a timeout never at a deadline, with one not past it, with a zero one after one look |
| SerialStream.SerialStream.TakeBuffered | pc/src/stream/serial.py:183-187 | what the buffer still holds comes first, up to the size asked for, and is no longer held |
| SerialStream.SerialStream.TakeChunk | pc/src/stream/serial.py:207-214 | leftovers are pushed only onto an empty buffer; nothing is lost or reordered |
| SerialStream.SerialStream.Perform | pc/src/stream/serial.py:176-223 | one arrival or read: what it gives and what is left is what was pending and what came; less than asked for only with an excuse, or with nothing left |
| SerialStream.SerialStream.Run | pc/src/stream/serial.py:176-223 | over any interleaving of arrivals and reads: what the reads gave, then what is left, is what was pending and what came in these calls, in order; a read that gives less without a deadline has given all that came so far |
| SerialStream.ArrivedAppend | pc/src/stream/serial.py:40-42 | what arrives in two schedules, one after the other, is what arrives in their concatenation |
| LineSplitter.Find | pc/src/models/thermostat/dispatcher.py:389-391 | the first newline, or none |
| LineSplitter.SplitExact | pc/src/models/thermostat/dispatcher.py:388-399 | the splitter's result is the one way to write the stream as newline-free lines and a newline-free rest |
| LineSplitter.SplitAppend | pc/src/models/thermostat/dispatcher.py:381-399 | splitting in two steps, carrying the rest over, equals splitting at once |
| LineSplitter.ChunkingIrrelevant | pc/src/models/thermostat/dispatcher.py:381-399 | for every cutting of the stream into chunks, lines and rest are those of the whole stream |
| LineSplitter.LineEndings | pc/src/models/thermostat/dispatcher.py:381-399 | of text with either kind of line ending, mixed in any way, the lines logged are the lines |
| LineSplitter.OneReturnGoes | pc/src/models/thermostat/dispatcher.py:396-397 | exactly one carriage return at the end goes |
| LineSplitter.SplitExample | pc/src/models/thermostat/dispatcher.py:381-399 | an example in bytes |
| LineSplitter.LineSplitter.HandleRxChunk | pc/src/models/thermostat/dispatcher.py:381-399 | lines and buffer are the split of old buffer and chunk, one carriage return removed from each line; the loop ends |
| LineSplitter.LineSplitter.ReaderLoop | pc/src/models/thermostat/dispatcher.py:348-372 | over any sequence of reads the lines logged are those of the concatenated bytes |

## Left out

- Clocks, timeouts and uptime wrap: a timeout is a choice of the schedule or of the step system.
- UART, file and JSON access: parameters; saves of stat.json succeed and its content is valid.
- Cryptography and the loading of certificate and key material: a choice of the outside at each request.
- Base-name normalisation and path resolution: a fixed order of names and a map from names to complete or incomplete pairs.
- The Verhoeff check digit: an arbitrary function of the digits before it.
- The user interface, logging, settings, providers, retrievers and reporters: shallow wiring over the parts modelled here.
- The transaction layer, the protobuf files and device/src/factory_manager.c: field-by-field copying that depends on generated code.
- StopAndWait.StopAndWaitSafe: covers one packet that starts with empty channels. Sequence numbers repeat from packet to packet, so the claim does not extend across packets. Its sender retransmits from a buffer of its own, as the host's does; the device's is in `SharedBuffer`.
- SharedBuffer.SharedSafe: what one write puts on the wire arrives as one piece, in any order, or gets lost; that the bytes of a write that failed may run together with those of the next one is not modelled. Reads begin with a magic pair of an answer or of a data frame of the host, or bring nothing.
- SharedBuffer.AttemptFollows: it is stated for attempts whose reads are frames of the host or beginnings of such frames, and a channel that could supply them.
- DeviceUart.Uart.ReadExact: turns in which bytes could have come count as moving nothing if the line is dry in the end.
- DeviceSession.DeviceSession.Open: event handlers that call back into the session are not modelled, nor are null-pointer checks.
- Provision.RunExact: one worker at a time, with `stop()` joining it successfully; rendering and event publication are not modelled.
- DacPool.RunSafe: needs every name that was ever final to keep a file in the directory across loads; `FinalExact` shows, name by name, that this guard is exact.
- DacPool.DacCredentialPoolStore.constructor: a process start loads the directory; a start without a stored setting, which leaves the store unconfigured, is the state after `Unload`.
- SetupPayload.ManualCanonical: the parser is modelled on ASCII digits; the source's `int()` also reads decimal digits of other scripts, on which the model raises. Fields are natural numbers.
- Base38.Decode: which of two errors is raised first on a text with several faults is not stated; the source's float division is exact at these sizes and is integer division here.
- SerialStream.SerialStream.Read: the reader thread acts between turns of the loop only, because the loop touches the queue nowhere else. Opening, closing and writing are not modelled.
- LineSplitter.LineSplitter.HandleRxChunk: lines are returned where the source writes them to the log; their UTF-8 decoding is not modelled.
- DeviceLink.DeviceLink.WaitFlowControl: whether the time for an answer is still running is a schedule of its own, independent of the read deadlines; null-pointer checks are not modelled.
- DeviceRuns.DeviceSound: stored bytes whose size field points outside the storage are not modelled; the device's reader refuses them.
- Session.FactorySessionClient.Open: the random session id is a parameter.

# Verified model of the RDD2 flight software's protocols and control state

This project models, in Dafny, the parts of the RDD2 flight stack in which bytes, threads and time
meet, and proves what they promise.

- **Serial framing.** `Crc`, `Framing` and `Scanner` say what a frame on the serial link is and what a
  greedy leftmost scan of a byte stream finds. `Decoder` is the ground station's buffered decoder.
  `Receiver` is the firmware's byte-at-a-time parser, a class with the same buffers, state and
  re-entrant rescan as the program; `Refinement` and `SerialLink` compare the two on every stream.
  `Resync` shows that the receiver recovers from any garbage, `Recovery` and `OneByte` say when a
  damaged byte loses it nothing, `Losses`, `Swallowed` and `LostFrame` when it does; `Trailer`, `Burst`
  and `Uart` which bursts of wrong bits are always found.
  `Transmitter` is the sending half: change detection, rate limit, sequence number, bounded queue.
  `Downlink` joins both ends.
- **Lockstep.** `InputStore` is the two-slot store with its semaphore, every byte copied being a
  step. `Clock` is controller time. `Exchange` puts host, coordinator and controller together as one
  interleaved system in which the controller's thread outranks the coordinator's; `Liveness` shows
  that every exchange ends, `Ranking` what happens without the ranking.
- **Snapshots and the control loop.** `Seqlock` covers both sequence-counter readers, `LatencyStats`
  the running mean and variance, `ControlLoop` arming and the two-rate attitude scheduler as a
  function over ticks, `FlightLoop` the loop body that keeps running sums and writes the motors, and
  `MotorOutput` the gate in front of the motors.
- **GNSS.** `Ubx` is the message stream and its Fletcher checksum, `GnssReader` the byte parser with
  its counters, and `Calendar` the civil-date arithmetic behind the time stamp of a fix.

Code that changes state in place is a class whose methods are proved against specification
functions; threads that interleave are step systems on values, and their results hold for every
schedule. Functions over bytes take the check function as a parameter where nothing depends on which
one it is. Bytes are integers from 0 to 255; bit-vectors stay in the modules about the CRC.

## What came out differently from a first reading

- The two serial decoders are documented to differ only on doubly-corrupted input
  (docs/ground_station_telemetry.md:62-70), and a damaged length byte is said not to swallow the
  frames behind it (subsys/zros_serial/zros_serial.c:239-240). One damaged byte is enough for both to
  fail. `Losses.OneByteTellsThemApart`: for every frame that fits into another with 12 bytes to spare,
  that other frame can be sent, and any change of its last byte makes the ground decoder return the
  inner frame where the firmware does not. `Swallowed.OneByteSwallowsNext`: with one byte of a frame
  changed, put in or lost so that the frame is taken for a longer one and a sync word inside it starts
  a second bad candidate, the firmware loses the next frame, which the ground decoder returns.
  `LostFrame.MetricsAreLost` is such a run on the configured link, of a 64-byte GNSS fix whose time
  stamp holds the sync word and the control-loop metrics behind it.
- What a sender can look at to rule this out: if no frame holds a sync word behind its own, firmware and
  ground decoder return the same frames and count the same CRC errors whichever single byte is changed
  or put in (`OneByte.OneByteIsRecovered`), and nothing undamaged is lost
  (`OneByte.OneByteSwallowsNothing`). For a lost byte that is not enough
  (`LostFrame.LostByteSwallows`); not even the first sync byte may occur. `SerialLink.InStepExactly`
  gives, for every stream, the condition under which the two are in step byte by byte.
- The line sends each byte's least significant bit first, the CRC consumes the most significant first,
  and the check field goes out low byte first. As bits are on the line, every burst of up to 16 within
  a frame's body is found (`Uart.BodyBurstIsFound`), but a burst that reaches into the check field is
  sure to be found only up to 14 (`Uart.FrameBurstIsFound`): every frame whatsoever is 15 bits away
  from another valid one (`Uart.FifteenBitsPass`). Counted in the CRC's order the figures are 16, 12
  and 13 (`Burst`).
- Day 0 of March in a year divisible by 400 is the one byte-wide month and day on which the date
  routine's 32-bit arithmetic shows (`Calendar.WrapShowsOnlyOnMarchZero`).
- A UBX reader that never rescans resynchronises behind any garbage if the messages contain no
  second preamble (`Ubx.Resynchronises`) and may otherwise never do so (`Ubx.EchoesNeverResume`).
- A controller overtaken between its wait and its read reads the newer lockstep input twice
  (`InputStore.OvertakenReadsTwice`), and only then (`InputStore.NotOvertakenNotTwice`).
- A comment says motor output is emitted on every controller tick
  (subsys/lockstep/lockstep_direct.c:73-75). The code publishes it only at the target time of an
  input (src/motor_output.c:131-136), and the model follows the code.
- Motor output is published once at boot, before any input. The first exchange therefore waits for
  the right publication only because the controller outranks the coordinator:
  `Exchange.ExchangeReturnsItsCommand` with the ranking, `Ranking.UnrankedReturnsIdle` without it,
  `Ranking.RankedExactly` for both.
- Of a snapshot of two words or more, a reader without the parity test is safe exactly if it cannot
  run inside the writer's section (`Seqlock.SafeExactly`). On the boards priorities see to that. In
  lockstep builds the RC writer runs in the coordinator, below its reader
  (boards/native_sim.conf:6), and what keeps them apart is that the controller is blocked from the
  coordinator's taking an input to its giving the semaphore (`Exchange.ControllerHeld`).
- A raw motor value of 48 is written as such but reported as a normalised command of zero, which
  elsewhere means a stopped motor (`MotorOutput.RawRoundTrip`).

## Model

| member | source | states |
|---|---|---|
| Bytes.PutLe16 | subsys/zros_serial/zros_serial.c:185-189 | two little-endian bytes that read back as the same 16-bit value |
| Bytes.LowOctetFirst | subsys/zros_serial/zros_serial.c:185-189 | the low octet goes first, and a value has no other octets |
| Crc.ComputeCrc16 | tools/synapse_serial/synapse_serial.py:83-90 | the nested loops compute the fold of whole octets |
| Crc.Crc16Divides | tools/synapse_serial/synapse_serial.py:83-90 | the octet-wise CRC is the remainder of bit-by-bit division by x^16+x^12+x^5+1, for every seed and length |
| Crc.BurstDetected | tools/synapse_serial/synapse_serial.py:83-90 | messages of one length whose differences fit in 16 consecutive bits share a CRC only if they are equal, at any length |
| Crc.RegisterDecided | tools/synapse_serial/synapse_serial.py:83-90 | different registers never meet again over the same bits |
| Crc.CheckValue | tools/synapse_serial/synapse_serial.py:84 | the published check value 0x29B1 for "123456789" |
| Trailer.CheckFieldIsRegister | tools/synapse_serial/synapse_serial.py:166 | the number both ends send and compare is the CRC of the bytes between sync word and trailer |
| Trailer.CheckFieldInTwoCalls | subsys/zros_serial/zros_serial.c:382-383 | a CRC over the header continued over the payload is the check field of both together |
| Crc.OctetDigits | tools/synapse_serial/synapse_serial.py:86-87 | an octet's bits, in the order the CRC consumes them, are its byte's binary digits |
| Framing.EncodedIsGood | tools/synapse_serial/synapse_serial.py:164-166 | every encoded frame is judged good and read back field by field |
| Framing.EncodedLayout | tools/synapse_serial/synapse_serial.py:164-166 | a frame on the wire, byte by byte: sync word 53 59, length, topic, number, no flags, payload, check of everything between |
| Framing.GoodIsEncoded | tools/synapse_serial/synapse_serial.py:195-213 | a buffer without flags is judged good if and only if some sendable frame's encoding is its beginning |
| Framing.JudgeExactly | tools/synapse_serial/synapse_serial.py:195-213 | each verdict by length field, bytes there and check field, zero and too long lengths included, and the fields of a good frame byte by byte |
| Framing.PartialIsIncomplete | tools/synapse_serial/synapse_serial.py:195-205 | no proper beginning of a frame is decided before its last byte |
| Uart.BodyBurstIsFound | tools/synapse_serial/synapse_serial.py:207-212 | on the configured link every burst of up to 16 bits on the line in a frame's body behind the length field is a CRC error |
| Uart.FrameBurstIsFound | tools/synapse_serial/synapse_serial.py:207-212 | across body and check field the same holds for every burst of up to 14 bits on the line |
| Uart.FifteenBitsPass | tools/synapse_serial/synapse_serial.py:166-170 | 14 is the most: for every frame there is another valid one whose bits differ within 15 consecutive bits on the line |
| Burst.BodyBurstIsRejected | tools/synapse_serial/synapse_serial.py:207-212 | the same of up to 16 bits in the order the CRC consumes them |
| Burst.FrameBurstIsRejected | tools/synapse_serial/synapse_serial.py:207-212 | in that order, across body and check field every burst of up to 12 bits is a CRC error |
| Burst.ThirteenBitsPass | tools/synapse_serial/synapse_serial.py:166-170 | 12 is the most in that order: for every frame there is another valid one whose bits differ within 13 consecutive bits |
| Burst.RemainderOf | tools/synapse_serial/synapse_serial.py:83-90 | the remainder of any message, bit by bit, in terms of the bits the division fed back |
| Trailer.TrailerBits | tools/synapse_serial/synapse_serial.py:166 | the bits of the check field's two bytes, in the order the CRC consumes a byte's, are the register's lower half followed by its upper half |
| Scanner.ScanInChunks | tools/synapse_serial/synapse_serial.py:177-216 | scanning b behind what a left over is scanning a+b, for every sound and stable decision function |
| Scanner.ScanIsGreedy | tools/synapse_serial/synapse_serial.py:187-216 | a scan is the declarative greedy leftmost choice of acceptable positions |
| Scanner.GreedyUnique | tools/synapse_serial/synapse_serial.py:187-216 | there is only one such choice |
| Scanner.NothingLost | tools/synapse_serial/synapse_serial.py:187-216 | an acceptable position in the decided part is returned unless it lies inside an accepted frame in front of it |
| Scanner.ScanPrefix | tools/synapse_serial/synapse_serial.py:187-216 | from any beginning of concatenated encodings exactly the complete frames come back, and the rest is the incomplete one |
| Decoder.Find | tools/synapse_serial/synapse_serial.py:188 | the first position of a sync word, or -1 when there is none anywhere |
| Decoder.FrameDecoder.Candidate | tools/synapse_serial/synapse_serial.py:195-212 | what the loop body decides on a buffer that starts with a sync word is the reference decision |
| Decoder.FrameDecoder.Feed | tools/synapse_serial/synapse_serial.py:177-216 | frames, leftover buffer and error count are those of a scan of old buffer plus chunk |
| Decoder.FeedTwice | tools/synapse_serial/synapse_serial.py:177-216 | feeding a then b gives the same frames, leftover and error count as feeding a+b, from any starting buffer |
| Decoder.FeedInChunks | tools/synapse_serial/synapse_serial.py:177-216 | the same on values: frames, errors and rest of a split stream compose |
| Decoder.RestIsShort | tools/synapse_serial/synapse_serial.py:195-205 | the leftover buffer is always shorter than the longest frame |
| Decoder.AcceptedIsValid | tools/synapse_serial/synapse_serial.py:187-216 | a position is accepted if and only if a whole valid frame starts there, and then that frame is returned |
| Decoder.ErrorsExactly | tools/synapse_serial/synapse_serial.py:207-212 | one error is counted for every offset in the decided part with a whole candidate whose check is wrong, those inside returned frames left out |
| Decoder.CountedIsBadCrc | tools/synapse_serial/synapse_serial.py:195-212 | what such a candidate is, byte by byte |
| Decoder.NoFrameLost | tools/synapse_serial/synapse_serial.py:187-216 | behind any garbage, a valid frame with room for the longest frame from its start has been returned unless an accepted frame overlaps it |
| Decoder.RoundTrip | tools/synapse_serial/synapse_serial.py:164-216 | frames encoded behind noise come back complete, in order, with no error and nothing left over |
| Refinement.RunExact | subsys/zros_serial/zros_serial.c:245-261 | receiver and reference agree at every byte looked at if and only if every candidate rejected during a rescan leaves a silent tail |
| Refinement.ReceiverMatchesReference | subsys/zros_serial/zros_serial.c:326-405 | with no rejection during a rescan, frames and CRC-error count are those of the reference scan |
| Refinement.RunOccurs | subsys/zros_serial/zros_serial.c:326-405 | on every stream each reported frame lies whole in what was received |
| Receiver.TopicById | subsys/zros_serial/zros_serial.c:263-272 | the first row with the id, or one past the end when no row has it |
| Receiver.OutcomeExactly | subsys/zros_serial/zros_serial.c:280-306 | a frame is published if and only if the first row with its id is inbound, has a publisher and the frame's size, and the store takes it; unknown topic and wrong direction likewise |
| Receiver.BooksExactly | subsys/zros_serial/zros_serial.c:280-306 | over any log: the published frames are those with that outcome, in order, and each counter is the number of frames with its outcome |
| Receiver.TooLongExactly | subsys/zros_serial/zros_serial.c:345-359 | a header is counted as bad exactly when its sixth byte arrives with a length of zero or beyond the limit |
| Receiver.BadHeaderIsCounted | subsys/zros_serial/zros_serial.c:352-358 | from idle such a header is counted once, and on top of it those its bytes hold when scanned again |
| Receiver.SerialReceiver.RxByte | subsys/zros_serial/zros_serial.c:326-405 | one byte takes the buffers, state and counters to the specified step, with every index in range and at most one rescan; what was published and every counter are those of the frames that passed the CRC, and rejected headers are counted one by one |
| Receiver.SerialReceiver.RxReplay | subsys/zros_serial/zros_serial.c:245-261 | a rescan outside a rescan replays every byte; inside one it only resets |
| Receiver.SerialReceiver.TrackSequence | subsys/zros_serial/zros_serial.c:313-324 | the gap counter goes up by one exactly if there was a number before and this one is not its successor, so that it counts those frames |
| Receiver.SerialReceiver.Deliver | subsys/zros_serial/zros_serial.c:280-306 | the frame is published or adds one to the counter its outcome has, and nothing else changes |
| Receiver.SerialReceiver.RxDrain | subsys/zros_serial/zros_serial.c:407-417 | draining bytes is the specified run, in at most 9 + limit executions of the parser body a byte, 137 at the configured limit; the headers turned down for their length are those of the run |
| SerialLink.InStepExactly | subsys/zros_serial/zros_serial.c:245-261 | in step with the ground decoder at every byte looked at if and only if that decoder finds no frame and no CRC error in what each rejection during a rescan drops; a condition on the stream, not on the damage |
| SerialLink.FirmwareIsSound | subsys/zros_serial/zros_serial.c:385-389 | on every stream whatsoever, a frame the firmware reports occurs valid in it |
| SerialLink.FirmwareRoundTrip | subsys/zros_serial/zros_serial.c:326-405 | encoded frames behind noise reach an idle receiver complete and in order |
| Resync.FirmwareResynchronises | subsys/zros_serial/zros_serial.c:326-405 | after any bytes whatsoever, of frames with no first sync byte in them sent back to back the firmware returns all from some frame on, and the one before that starts less than the longest frame behind those bytes |
| Recovery.ShallowIsUndisturbed | subsys/zros_serial/zros_serial.c:245-261 | in step at every byte on every stream where a rejected candidate inside another holds no first sync byte behind its own |
| Recovery.ClearAgrees | subsys/zros_serial/zros_serial.c:245-261 | the same frames and CRC-error count on every stream where it holds no second sync word |
| OneByte.OneByteIsRecovered | subsys/zros_serial/zros_serial.c:239-261 | frames with no second sync word in them, sent back to back, with any one byte changed or put in, or frames with no first sync byte in them and any one byte lost: the firmware returns the frames and CRC-error count of the ground decoder |
| OneByte.OneByteKeepsStep | docs/ground_station_telemetry.md:62-70 | if not even the first sync byte occurs in them, the two are in step at every byte looked at, whichever byte is changed, put in or lost |
| OneByte.OneByteSwallowsNothing | subsys/zros_serial/zros_serial.c:239-240 | each frame the damage does not lie in, with room for the longest frame from where it is then, is returned by the firmware unless it overlaps a frame that is |
| Losses.OneByteTellsThemApart | docs/ground_station_telemetry.md:62-70 | for every frame with 12 bytes to spare up to the limit, a frame can be sent of which the last byte changed in any way leaves the ground decoder with the first and the firmware without |
| Swallowed.OneByteSwallowsNext | subsys/zros_serial/zros_serial.c:239-240 | a run of frames, one byte of the first changed, put in or lost so that it holds a bad candidate inside a bad candidate, both reaching into the second frame, with no first sync byte elsewhere in the damaged bytes and none but the first in the second frame: the ground decoder returns the second and all behind, the firmware only those behind |
| Swallowed.NextIsSwallowed | subsys/zros_serial/zros_serial.c:252-254 | the same whatever bytes stand where the first frame was sent |
| LostFrame.MetricsAreLost | docs/ground_station_telemetry.md:90-97 | on the configured link, with one length byte of a 64-byte GNSS fix changed, the firmware loses the control-loop metrics behind it and the ground decoder does not, whatever follows |
| LostFrame.LostByteSwallows | subsys/zros_serial/zros_serial.c:213-215 | a 64-byte frame with no second sync word in it that without one byte swallows any frame behind it with no first sync byte in it |
| Transmitter.SerialTransmitter.Assemble | subsys/zros_serial/zros_serial.c:444-452 | the assembled bytes are the encoding of the frame with the current sequence number, which is then spent |
| Transmitter.SerialTransmitter.TopicIfDue | subsys/zros_serial/zros_serial.c:419-478 | a frame is built exactly if the topic was published, its generation is not the one sent last, its interval passed and it can be read; it holds the sample read and is queued whole or dropped whole |
| Transmitter.SerialTransmitter.TxScan | subsys/zros_serial/zros_serial.c:480-493 | one pass builds the frames of `Transmitter.PassExactly` and leaves every slot as it says |
| Transmitter.PassExactly | subsys/zros_serial/zros_serial.c:419-493 | in a pass a topic has a frame if and only if it is outbound, was published, moved since its last frame, is not held back by its interval and can be read; only then its slot changes |
| Transmitter.PassOrder | subsys/zros_serial/zros_serial.c:480-493 | the frames of a pass are in table order, one a topic at most |
| Transmitter.PassContents | subsys/zros_serial/zros_serial.c:436-465 | each holds the newest sample of its topic and its id, and is queued if it fits behind those queued before it in the pass |
| Transmitter.SerialTransmitter.IsrTransmit | subsys/zros_serial/zros_serial.c:218-231 | bytes written move from the front of the queue to the wire, none lost or repeated |
| Transmitter.WireDecodes | subsys/zros_serial/zros_serial.c:459-465 | what is on the wire decodes, without an error, to the queued frames that lie whole in it, in order and no fewer |
| Transmitter.RateIsLimited | subsys/zros_serial/zros_serial.c:431-434 | two frames of one topic are at least the minimum interval apart |
| Transmitter.SentOncePerGeneration | subsys/zros_serial/zros_serial.c:427-430 | of two neighbouring frames of one topic the generations differ: nothing is sent again before it is published again |
| Transmitter.QuietTopicIsFresh | subsys/zros_serial/zros_serial.c:467-477 | the recorded generation is never newer than the sample sent; once the topic is quiet at that generation its last frame holds the current sample and the topic is not due; otherwise it is due as soon as its interval has passed |
| Downlink.GapsCountLosses | subsys/zros_serial/zros_serial.c:313-324 | a receiver that drained the sender's wire holds exactly the queued frames that lie whole in it, in order, and its gap counter is the number of neighbours among them with a number of dropped frames between them that is not a multiple of 256 |
| Downlink.NoGapExactly | subsys/zros_serial/zros_serial.c:313-324 | no loss is seen if and only if between any two neighbours a multiple of 256 frames was dropped |
| Downlink.Listen | subsys/zros_serial/zros_serial.c:407-417 | the same of a receiver that starts from power-up and drains those bytes |
| InputStore.FetchesAreWhole | subsys/lockstep/lockstep_transport.c:27-69 | under every schedule a fetch returns one published input whole, one that was offered, of 56 bytes and with its flags set, and fetching never fails after a wait |
| InputStore.OfferedIsPublished | subsys/lockstep/lockstep_transport.c:27-37 | an offered input of 56 bytes with its flags set is published in a fixed number of steps, any other leaves no trace |
| InputStore.AcceptedReadIsLatest | subsys/lockstep/lockstep_transport.c:50-68 | at the step that accepts it, the input read is the latest published |
| InputStore.NoLostWakeup | subsys/lockstep/lockstep_transport.c:71-94 | blocked on an empty semaphore with the publisher idle, there is no generation it has not seen |
| InputStore.UnseenInputIsFetched | subsys/lockstep/lockstep_transport.c:71-94 | left alone, a waiting controller with an unseen input has fetched it within a fixed number of its own steps |
| InputStore.Reachable | subsys/lockstep/lockstep_transport.c:27-94 | store, semaphore, wait and read invariants hold under every schedule, generations returned by waits strictly rising |
| InputStore.NotOvertakenNotTwice | src/imu_stream.c:346-351 | an input whose fetch returned the generation waited for is never fetched again |
| InputStore.OvertakenReadsTwice | src/imu_stream.c:346-351 | a publication between wait and fetch makes the next two fetches return the same input |
| Clock.TicksExact | src/imu_stream.c:422-425 | an input takes ceil(advance/625000) ticks, all but the last a whole period, none empty, adding up to the advance |
| Clock.LockstepClock.WaitUntilTickReady | src/imu_stream.c:340-361 | the wait loop takes at most one input and then leaves a target in the future |
| Clock.LockstepClock.WaitNext | src/imu_stream.c:411-459 | a tick is the next of the ticks to the target, and a failed wait leaves the clock alone |
| Clock.PlantStepIsEightTicks | src/imu_stream.c:435-436 | an input 5 ms on takes eight ticks |
| Clock.ExpiresEveryDivisor | src/main.c:69-77 | the divider expires on calls 0, d, 2d and so on, and on no other |
| Exchange.NextSequence | tools/fastdyn_mission/src/shared_memory.rs:180-183 | the host's next sequence number is one more, or 1 after 2^32 - 1, and never zero |
| Exchange.Reachable | subsys/lockstep/lockstep_direct.c:46-91 | the invariant of host, coordinator, store, controller and clock under every ranked schedule |
| Exchange.ExchangeReturnsItsCommand | tools/fastdyn_mission/src/shared_memory.rs:159-223 | under every ranked schedule the k-th exchange returns 96 bytes: the motor command computed at the target time of input k and the vehicle health computed at that of the last multiple of eight up to k |
| Exchange.ControllerHeld | subsys/lockstep/lockstep_direct.c:55-72 | under every ranked schedule the controller is blocked and stays so from the coordinator's taking an input to its giving the semaphore |
| Exchange.OnePublicationPerInput | src/motor_output.c:131-136 | one motor publication an input and one at boot, and one flight state every eighth input |
| Exchange.InputEndsAtItsStamp | src/imu_stream.c:353-357 | an input ends at its time stamp if that lies ahead, else one period of 625000 ns on, and its memory is that of the clock's ticks up to there |
| Exchange.ClockIsStamp | src/imu_stream.c:340-361 | with strictly rising positive stamps the controller's time after an input is that input's stamp |
| Exchange.TicksAreHandedOver | src/imu_stream.c:411-459 | each tick of an input is computed from that input's sample and its own length, in order |
| Liveness.SomeThreadMoves | subsys/lockstep/lockstep_direct.c:76-80 | while an exchange is under way some thread can take a step that changes something |
| Liveness.StepDescends | subsys/lockstep/lockstep_direct.c:46-91 | every step that changes something lowers the number of steps the exchange under way can still take |
| Liveness.EveryScheduleEnds | subsys/lockstep/lockstep_direct.c:46-91 | from every reachable state every schedule with that many effective steps ends the exchange, answered if its input decodes and with the coordinator stopped if not |
| Liveness.FairScheduleEnds | subsys/lockstep/lockstep_direct.c:46-91 | so does every schedule of that many rounds in each of which every thread gets to take a step |
| Liveness.WholeExchange | tools/fastdyn_mission/src/shared_memory.rs:159-223 | at the start that number is a step a byte in and out, one a controller tick and a fixed number more |
| Ranking.UnrankedReturnsIdle | src/motor_output.c:108-115 | without the ranking a schedule returns the idle command of boot and no health for any first input |
| Ranking.RankedExactly | subsys/lockstep/lockstep_direct.c:73-80 | for every law under which some first input leads to another than the idle command: all exchanges return the answers of their own inputs under every schedule if and only if the threads are ranked |
| Seqlock.ReturnsAreWhole | src/imu_latency_stats.c:98-109 | with the parity test under every schedule, or without it when the reader takes no step inside the writer's section: what is returned is one snapshot whole, not older than the call |
| Seqlock.AnswerIsRecent | src/imu_latency_stats.c:89-110 | whatever happens between call and return, what is returned is the snapshot that was the latest at the call or one published since |
| Seqlock.WriterPublishes | src/imu_latency_stats.c:24-31 | a step a word and two for the counter replace the snapshot and publish it, with the counter even again |
| Seqlock.EvenReturnsAreWhole | src/rc_input.c:78-88 | for every reader, a pass that began at an even counter returns a snapshot whole |
| Seqlock.SafeExactly | src/rc_input.c:78-88 | for two words or more, always whole if and only if there is a parity test or the reader takes no step inside the writer's section |
| Seqlock.StaleEndReturnsTorn | src/rc_input.c:80-88 | for any two snapshots a schedule in which the stale end value lets a torn copy through |
| Seqlock.ReaderReturns | src/rc_input.c:78-88 | from every reachable state, with the writer outside its section and left there, a called reader returns within 2 n + 7 of its own steps for n words, and with the latest snapshot unless it had accepted an older one |
| LatencyStats.Stats.Update | src/imu_latency_stats.c:38-87 | the snapshot describes all nonzero latencies so far, each one adding one to its count; a zero changes nothing |
| LatencyStats.Stats.Accumulate | src/imu_latency_stats.c:49-70 | mean times count is the sum, the second moment is the sum of squared deviations from the mean, minimum and maximum are attained bounds |
| LatencyStats.WelfordStep | src/imu_latency_stats.c:65-69 | one update keeps both equations |
| LatencyStats.MeanWithin | src/imu_latency_stats.c:58-69 | the mean lies between minimum and maximum |
| LatencyStats.DeviationNonNegative | src/imu_latency_stats.c:72-83 | the variance under the square root is never negative |
| LatencyStats.MeanMinimisesDeviation | src/imu_latency_stats.c:65-69 | no other value is closer to the samples than the mean kept |
| ControlLoop.ArmedExactly | src/main.c:261-266 | a tick leaves the vehicle armed if and only if the throttle was at most 1050 at that or an earlier tick since when the IMU was good, RC valid and, outside lockstep, no older than 100 ms, and the arm switch on |
| ControlLoop.ResetExactly | src/main.c:271-272 | the controllers start afresh exactly on ticks that leave the vehicle disarmed, on the first one armed and on a change of mode |
| ControlLoop.WindowsExactly | src/main.c:268-328 | a window goes to the predictor exactly on the good armed ticks that are due, every eighth of those armed in auto-level mode and every sixteenth of the others; and what each tick leaves held |
| ControlLoop.WindowsAreBounded | src/main.c:79-89 | samples held and both countdowns never exceed 22 after a tick and no window has more than 23 samples, however modes and arming flip |
| ControlLoop.LongestWindow | src/main.c:268-328 | a run that reaches 23 |
| ControlLoop.WindowsAreDisjoint | src/main.c:274-328 | each window is the latest ticks' samples and a later one begins after an earlier one ends: no sample is averaged twice |
| ControlLoop.SamplesConserved | src/main.c:305-328 | while armed, windows and held samples are exactly the samples taken, in order |
| ControlLoop.TimeConserved | src/main.c:281-326 | while armed, time predicted and time held add up to the time elapsed |
| FlightLoop.Flight.Arm | src/main.c:261-266 | armed after a pass if and only if IMU, RC freshness and arm switch are good and it was armed before or the throttle is low |
| FlightLoop.Flight.Update | src/main.c:228-328 | running sums, countdowns and arming step as the specification; the predictor gets, axis by axis, the window's sum divided by its length, and all of its time |
| FlightLoop.MeanIsAverage | src/main.c:306-320 | average of each axis of gyro and accelerometer, and the sum of the times |
| FlightLoop.AverageWithin | src/main.c:306-318 | each averaged axis lies between any bounds of the window's samples |
| FlightLoop.AllTimeIsFed | src/main.c:281-326 | in every run of passes, while armed, the time fed to the predictor and the time summed up for it are the time held at first and every tick's length since, 1/1600 s where it is not positive |
| FlightLoop.Flight.WriteMotors | src/main.c:335-388 | each pass writes once, from motor test, raw test, stop or mix in that order |
| FlightLoop.ToldExactly | src/main.c:335-388 | test values while a test is active; the mix, motor by motor, when armed with IMU good, RC valid and fresh; stop in every other case |
| FlightLoop.DisarmedMeansStopped | src/main.c:335-388 | outside motor tests a motor told to turn means armed, IMU good and RC valid and fresh, and every value ever written is 0 or in 48..2047 |
| FlightLoop.Flight.Pass | src/main.c:228-388 | a pass updates, writes what `FlightLoop.ToldExactly` says at the target and nothing before it, and extends the record of readings, feeds and writes: every feed the average of its window, every write gated by the arming its readings lead to |
| FlightLoop.TurningMeansArmedSince | src/main.c:261-388 | in every run of passes a motor told to turn, other than by a motor test, means the throttle was low at some pass since when IMU, RC freshness and arm switch have all held |
| MotorOutput.ToDshotMeaning | src/motor_output.c:69-79 | 0 exactly when disarmed or not above zero, otherwise the nearest value in 48..2047 |
| MotorOutput.ToDshotMonotone | src/motor_output.c:69-79 | a larger command never gives a smaller value |
| MotorOutput.WriteIsGated | src/motor_output.c:140-153 | disarmed, all zero; armed, each applied command is the one asked for cut to [0, 1], and its DSHOT value zero exactly where nothing above zero was asked and else the nearest to 48 + 1999 times it |
| MotorOutput.RawRoundTrip | src/motor_output.c:179-196 | raw values are clamped to commands, and the normalised report means the same value except for 48 |
| MotorOutput.RawWriteIsCut | src/motor_output.c:179-196 | zeros stay zero, values under 48 become 48 and over 2047 become 2047, all others stay, and the write is armed exactly if some motor is to turn |
| MotorOutput.MotorBank.constructor | src/motor_output.c:92-116 | both tests off and one all-off output written before anything else |
| MotorOutput.MotorBank.WriteAll | src/motor_output.c:122-160 | one output more at the target of an input and none before it, each motor clamped and converted |
| MotorOutput.MotorBank.WriteAllRaw | src/motor_output.c:162-210 | the same for raw values, reported armed exactly if some motor is |
| Ubx.AddToChecksum | subsys/gnss_source/gnss_onboard.c:141-147 | the loop continues the checksum from the sums given |
| Ubx.FoldConcat | subsys/gnss_source/gnss_onboard.c:269-270 | header then payload is the checksum of both together |
| Ubx.ClosedForm | subsys/gnss_source/gnss_onboard.c:141-147 | the two sums are the plain and the position-weighted byte sum modulo 256 |
| Ubx.PairDamageDetected | subsys/gnss_source/gnss_onboard.c:272-275 | changing two neighbouring bytes in any way changes the checksum, in a message of any length |
| Ubx.EncodeLayout | subsys/gnss_source/gnss_onboard.c:141-147 | a message on the wire, byte by byte, ending in the plain and the weighted byte sum modulo 256 |
| Ubx.CandidateIsJudged | subsys/gnss_source/gnss_onboard.c:264-275 | a whole candidate within the limit is a message if and only if its last two bytes are those sums, and reading goes on behind it |
| Ubx.OversizeIsReported | subsys/gnss_source/gnss_onboard.c:314-322 | six bytes that announce more than the limit are one oversize event, and reading goes on behind them |
| Ubx.DamageIsReported | subsys/gnss_source/gnss_onboard.c:272-275 | two neighbouring payload bytes damaged in any way give one bad checksum and lose nothing else |
| Ubx.ParseConcat | subsys/gnss_source/gnss_onboard.c:291-346 | reading on behind what was undecided is reading the whole stream |
| Ubx.RoundTrip | subsys/gnss_source/gnss_onboard.c:291-346 | messages sent back to back are received in order with nothing in between |
| Ubx.QuietIsDropped | subsys/gnss_source/gnss_onboard.c:293-306 | bytes without a preamble leave no trace, even when they end in a lone first preamble byte |
| Ubx.Resynchronises | subsys/gnss_source/gnss_onboard.c:291-346 | after any bytes, at most one more candidate comes of them and every clean message starting limit + 6 bytes later is received |
| Ubx.EchoesNeverResume | subsys/gnss_source/gnss_onboard.c:291-346 | a message with a false header inside, joined midway, is lost however often it is repeated |
| GnssReader.Conservation | subsys/gnss_source/gnss_onboard.c:264-289 | every candidate is bad, oversize or a frame; every frame is another message, of a bad length, or a sample |
| GnssReader.CountsExactly | subsys/gnss_source/gnss_onboard.c:264-289 | each counter counts its own kind: bad checksum, oversize, frame, class and id other than 01 07, length other than 92, solution |
| GnssReader.SolutionIsCounted | subsys/gnss_source/gnss_onboard.c:291-346 | a message of class 01, id 07 and 92 bytes sent to a reader looking for a preamble is one frame and one sample more, and nothing else |
| GnssReader.UbxReader.Publish | subsys/gnss_source/gnss_onboard.c:194-262 | a solution is counted, its time stamp and fix type kept, and it is published or counted as refused as the topic answers |
| GnssReader.UbxReader.FrameComplete | subsys/gnss_source/gnss_onboard.c:264-289 | the whole frame is judged by the checksum of header and payload and counted once |
| GnssReader.UbxReader.RxByte | subsys/gnss_source/gnss_onboard.c:291-346 | after every stream, buffers, counters, publications, refusals and the last fix are those of reading the stream from its front, indices in range |
| Calendar.WrapShowsOnlyOnMarchZero | subsys/gnss_source/gnss_onboard.c:185-191 | the 32-bit arithmetic equals the unbounded one for every byte-wide month and day, except day 0 of March in a year divisible by 400 |
| Calendar.EpochIsZero | subsys/gnss_source/gnss_onboard.c:177-192 | 1970-01-01 is day 0 |
| Calendar.SuccessorIsNextDay | subsys/gnss_source/gnss_onboard.c:178-192 | consecutive dates of the proleptic Gregorian calendar differ by one, in every year |
| Calendar.CountFollowsCalendar | subsys/gnss_source/gnss_onboard.c:178-192 | the count orders dates as the calendar does and gives no two the same number |
| Calendar.DayAfterEpoch | subsys/gnss_source/gnss_onboard.c:178-192 | every number from 0 is the number of a date |
| Calendar.DaysByYearDay | subsys/gnss_source/gnss_onboard.c:178-192 | the count is leap-year days before the year plus days before the month plus the day |
| Calendar.TimeStampIsPosix | subsys/gnss_source/gnss_onboard.c:149-175 | a fix carries a time exactly if date and time are valid, the fix is good and has a carrier solution or a type of its own, and its year is 1970 or later, and the time is then that of IEEE Std 1003.1-2017, Base Definitions, section 4.16 |

## Left out

- Memory is sequentially consistent; the fences and the weaker orderings of the C and Rust memory models are not modelled.
- Generations, sequence counters of the snapshots and statistics counters are unbounded; their wrap at 2^32 and the overflow of nanoseconds at 2^64 are not modelled. The serial sequence number and the host's sequence number do wrap.
- Floating point is real arithmetic: no rounding, infinities or NaN.
- Which bits an inertial sample keeps its flags and time in, the generated message structs, and the 92-byte layout of a navigation solution: functions passed in.
- InputStore.FetchesAreWhole: inputs rejected by the decoder are never stored; what the decoder looks at beyond length and flags is not modelled.
- Exchange.ExchangeReturnsItsCommand: assumes no host timeout, after which the host may rewrite an input still being read; the fetch from the store and the copies of the two output topics are single steps here, the first justified by `InputStore.AcceptedReadIsLatest`; manual control input travels beside the inertial sample and is not modelled, nor are the parts of the flight state the host does not read; waiting for and answering a sequence number are taken to mean reading and storing it.
- Seqlock.ReturnsAreWhole: that the reader takes no step inside the writer's section is assumed, from the CRSF input thread (1) over the main thread (2) on the boards and from `Exchange.ControllerHeld` in lockstep builds; a reader that outranks a writer it interrupted is not shown to terminate.
- OneByte.OneByteIsRecovered: sufficient, not necessary: with a sync word inside a frame, whether a damaged byte loses anything depends on the check fields of what follows. For payload limits below 0x5300, where a length field damaged into a sync byte is too large for any frame; the configuration allows 8 to 512 (subsys/zros_serial/Kconfig:27-30). `OneByte.OneByteKeepsStep`, `OneByte.OneByteSwallowsNothing` and, below 0x5953, `Losses.OneByteTellsThemApart` likewise.
- Swallowed.NextIsSwallowed: one family of losses, not the exact set of damages that lose a frame; the exact condition on the stream is `SerialLink.InStepExactly`.
- Uart.BodyBurstIsFound, as well as Uart.FrameBurstIsFound: start and stop bits are not counted, and damage to them, which makes the UART lose or put in a byte, is not a burst.
- ControlLoop and FlightLoop: controllers, mixer, estimator and flight-mode thresholds are opaque; the mix is a parameter.
- MotorOutput.MotorBank.WriteAll, as well as MotorOutput.MotorBank.WriteAllRaw: the topic is taken to be ready; the publisher's readiness flag, the device writes and the returned trigger time are not modelled.
- Transmitter.WireDecodes: pausing the link, which drops the queue on purpose, is excluded.
- Transmitter.SerialTransmitter.TopicIfDue: whether the topic store lets a topic be read is an input.
- Receiver.SerialReceiver.Deliver: what the topic stores answer, one after another, is an input; the receive ring in front of the parser and its overrun counter are not modelled.
- LatencyStats.Stats.Update: keeps the variance; the square root published as standard deviation is not modelled.
- GnssReader.UbxReader.Publish: the topic's answers are an input, and of the fix only the time stamp and the fix type are modelled, not the unit conversions of its other fields.
- Resolving topics by name at start-up, the shells, the port scan, device set-up, the DSHOT wire encoding, the FastDyn transport's variant of the coordinator, the host's physics and the ground-station bridges.

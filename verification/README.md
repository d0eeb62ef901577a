# Kestrel: timers, reliable stream, wire format and routing

Kestrel carries reliable byte streams over UDP. This project models four connected parts of it and
proves what they promise. Methods over classes follow the code step by step; each is proved against
a function on plain values, and the properties are proved about those functions, over every input
and over whole runs.

**Timers** (`Bits`, `WheelModel`, `WheelBatches`, `WheelCancels`, `TimingWheels`, `TaskModel`,
`GlobalTimerTasks`). A hashed timing wheel keeps timers in a power-of-two number of slots, with a
positional index, a pointer, a clock and a cached next expiry. Its specification is a plain set of
timers. The wheel agrees with that set although one advance visits at most one revolution of slots,
the search for the next expiry stops early, and batches take a path of their own. The global timer
task adds two indexes by connection; its run loop is a state machine whose turns begin by asking
for the next expiry.

**Stream** (`SendBuffers`, `Packetizers`, `ReceiveBuffers`, `StreamPipeline`, `WirePipeline`).
Bytes are written to a bounded queue, cut into numbered packets, carried by a network that loses,
repeats and reorders, held back until they are next, and delivered. A run is any list of steps of
all four parties; over the wire, what the network carries are datagrams of encoded frames.

**Wire format and packing** (`Bytes`, `Frames`, `Datagrams`, `Packing`). Frames to bytes and back,
several frames per datagram, two separate greedy packers that make the same packets, and the size
check that must discharge an assertion made much later.

**Routing** (`RouterModel`, `FrameRouters`). Active connections, address routes, resting
identifiers and frames that arrive before their connection does.

Where the code does not do what one would expect, the exact condition is proved:

- A batch cancel with a repeated live id swap-removes a neighbour, unless everything behind the
  repeated timer in its slot is requested as well (`WheelCancels.SafeIffHarmless`,
  `WheelCancels.UnsafeBatchLoses`, at a concrete input `WheelCancels.RepeatedCancelLosesNeighbour`).
  Runs of the timer task are followed up to the first such batch (`TaskModel.Allowed`); the condition
  a caller can check is `WheelCancels.Repeatable`, and no weaker one would do.
- The batch path for adding timers cuts delays off to 64-bit nanoseconds and the single path does
  not (`WheelBatches.LaneExpiryIff`); an expiry that wraps to before the clock breaks the wheel
  (`WheelBatches.LanesKeepWheelIff`, at concrete inputs `WheelBatches.LongDelaysWrap`). Runs are
  followed up to the first such batch.
- The cached next expiry is only a lower bound, and an addition to a non-empty wheel with an empty
  cache can break even that (`TaskModel.AddKeepsCacheIff`, `TaskModel.CacheCanOverrun`). The run loop never gets there
  (`TaskModel.TurnKeepsOk`).
- The end of the stream can be numbered while data is still waiting
  (`StreamPipeline.EndOfStream`, `StreamPipeline.ClosingLosesNothingIff`,
  `StreamPipeline.EndCanOvertakeData`).
- An advance of less than one slot fires due timers, but keeps the cached expiry of the earliest
  of them (`WheelModel.AdvanceKeepsCacheExactIff`).
- A path challenge spends a sequence number that the receiver never fills, so the stream stops
  there (`StreamPipeline.ChallengeBlocksStream`, `StreamPipeline.AllIsDeliveredIff`,
  `StreamPipeline.ChallengeCanStallData`).
- Processing the end of the stream forgets accepted packets beyond it
  (`StreamPipeline.AckStaysExactIff`, `StreamPipeline.EndForgetsLaterData`).
- Length fields are 16 bits wide and cut off silently (`Frames.NewPushSafeIff`,
  `Datagrams.AckDeliversRangesIff`), and so is the announced window
  (`ReceiveBuffers.ReceiveBuffer.WindowSize`).
- An identifier of zero can be generated, but is not reachable by itself
  (`RouterModel.ReachableFromAnywhereIff`).
- The comment above the loop of `check_current_slot_for_expired_timers` says the slot is traversed
  in reverse; the code goes forward, and so does the model.

## Model

Times are nanoseconds. Files are given relative to the repository.

| member | source | states |
|---|---|---|
| `Bits.MaskIsMod` | src/timer/wheel/core.rs:66-74 | masking with a power of two minus one is the remainder, the step behind every slot mask |
| `Bits.TruncatedMask` | src/timer/wheel/simd.rs:113-148 | casting to 32 or 64 bits before masking with at most 32 mask bits changes nothing |
| `WheelModel.FoundIffQueued` | src/timer/wheel/core.rs:16-47 | the set of timers read off the index is exactly the set of entries queued in the slots, in both directions |
| `WheelModel.IndexUnique` | src/timer/wheel/core.rs:16-47 | an index that is a bijection onto the positions is determined by the slots |
| `WheelModel.WheelAddRefines` | src/timer/wheel/core.rs:285-322 | adding to the concrete wheel keeps its invariant and adds exactly one timer to the set |
| `WheelModel.WheelAddAllRefines` | src/timer/wheel/core.rs:103-181 | folding the single addition over a batch adds exactly the batch to the set |
| `WheelModel.WheelRemoveRefines` | src/timer/wheel/core.rs:333-385 | swap-remove and re-indexing keep the invariant and take exactly the cancelled id out of the set |
| `WheelModel.ShiftKeepsIndex` | src/timer/wheel/core.rs:597-637 | removing from the middle of a slot and renumbering what follows leaves an exact index |
| `WheelModel.SlotDistance` | src/timer/wheel/core.rs:587-593 | a live timer waits exactly as many slots ahead of the pointer as its ticks from the clock, modulo one revolution, so its slot is never further ahead than its expiry |
| `WheelModel.DueIsWithinReach` | src/timer/wheel/core.rs:405-426 | every timer due at `now` waits in one of the slots an advance to `now` visits, even with the one-revolution limit |
| `WheelModel.ClockStaysBehind` | src/timer/wheel/core.rs:414-432 | the clock never passes `now`, so nothing left behind is earlier than the clock |
| `WheelModel.FinishAdvance` | src/timer/wheel/core.rs:396-483 | when every slot in reach is clear of due timers, what expired is exactly the due set, what is left exactly the rest, and the invariant holds again |
| `WheelModel.ScanFindsEarliest` | src/timer/wheel/core.rs:515-553 | stopping the circular scan at the first result not beyond the slot just looked at loses nothing: the result is the true minimum, also with timers of several revolutions in one slot |
| `WheelModel.EarliestUnique` | src/timer/wheel/core.rs:491-560 | the minimum expiry of a set of timers is unique |
| `WheelModel.CancelKeepsCacheExact` | src/timer/wheel/core.rs:372-381 | a cancellation leaves an exact cache exact or empty; empty if and only if a timer cancelled expires at most a millisecond after the value cached |
| `WheelModel.AdvanceKeepsCacheExactIff` | src/timer/wheel/core.rs:396-483 | an advance leaves an exact cache exact or empty if and only if a whole slot has passed or nothing was due |
| `WheelModel.ClearForgetsTimers` | src/timer/wheel/core.rs:576-583 | after clearing, the cache is exact for no timer at all, and a timer added is the only one |
| `TimingWheels.TimingWheel.constructor` | src/timer/wheel/core.rs:60-83 | the whole state of a new wheel: an empty schedule with ids from 1 |
| `TimingWheels.TimingWheel.CalculateSlotIndex` | src/timer/wheel/core.rs:587-593 | the masked offset is the whole number of slots since the start, modulo the slot count |
| `TimingWheels.TimingWheel.AddTimer` | src/timer/wheel/core.rs:285-322 | the new state, index and cache, and the id returned |
| `TimingWheels.TimingWheel.CancelTimer` | src/timer/wheel/core.rs:333-385 | exactly the given id goes; true if and only if it was live; the cache is dropped exactly when that timer expires within a millisecond of it |
| `TimingWheels.TimingWheel.CheckCurrentSlot` | src/timer/wheel/core.rs:597-637 | takes exactly the due entries out of the current slot, keeps the index exact, leaves other slots alone |
| `TimingWheels.TimingWheel.ProcessSlot` | src/timer/wheel/core.rs:434-470 | every entry of the slot entered either expires or is queued again in the slot it belongs to, none twice and none lost |
| `TimingWheels.TimingWheel.Advance` | src/timer/wheel/core.rs:396-483 | for every state and every `now`: returns exactly the live timers due at `now`, each once, keeps exactly the others, restores the whole invariant |
| `TimingWheels.TimingWheel.NextExpiryTime` | src/timer/wheel/core.rs:491-560 | with an empty cache the exact minimum over all live timers, otherwise the cached value; the answer is cached |
| `TimingWheels.TimingWheel.Clear` | src/timer/wheel/core.rs:576-583 | an empty set of timers with clock and ids untouched |
| `TimingWheels.TimingWheel.LaneCorrect` | src/timer/wheel/simd.rs:113-148 | for every total, both the 32-bit and the 64-bit cast find the slot of the scalar path |
| `WheelBatches.LaneExpiryIff` | src/timer/wheel/simd.rs:80-119 | the expiry of a lane, with clock, delay and sum cut off to 64 bits, is the scalar one if and only if that fits 64 bits, counted from the start |
| `TimingWheels.TimingWheel.SimdCalculateBatchMetadata` | src/timer/wheel/simd.rs:19-90 | in lanes of eight, four and one: consecutive ids, the expiry of every lane and the slot the scalar path gives that expiry |
| `TimingWheels.TimingWheel.SimdProcessDelays` | src/timer/wheel/simd.rs:95-179 | four lanes at a time and then a remainder give every wrapped sum and the slot of the scalar path, in order |
| `WheelBatches.WheelAddAllShape` | src/timer/wheel/core.rs:142-172 | adding one by one appends to every slot exactly the new entries of that slot, in order |
| `WheelBatches.GroupedEqualsFolded` | src/timer/wheel/core.rs:103-181 | insertion by slot groups ends in the very wheel that one-by-one insertion ends in: slots in order, index, ids, next id and cache |
| `TimingWheels.TimingWheel.InsertGroups` | src/timer/wheel/core.rs:158-172 | visiting the slot groups in any order appends the same entries to every slot |
| `WheelBatches.OtherEntriesDiffer` | src/timer/wheel/core.rs:103-181 | appending any other entry under the id of a batch member ends in a different set of timers |
| `WheelBatches.LanesKeepWheelIff` | src/timer/wheel/core.rs:103-181 | after a batch the wheel invariant holds if and only if no expiry wrapped to before the clock, and then the batch was added with the delays of the lanes |
| `WheelBatches.LongDelaysWrap` | src/timer/wheel/simd.rs:80-119 | on a new wheel a delay of 2^64 nanoseconds in a batch is due at once; one nanosecond less, ten milliseconds later, wraps to before the clock |
| `TimingWheels.TimingWheel.BatchAddTimers` | src/timer/wheel/core.rs:103-181 | for every batch: the entries appended; the wheel stays one if and only if no expiry wrapped to before the clock; the schedule equals that of folding the single addition if and only if every expiry fits 64 bits; the ids are consecutive |
| `WheelCancels.DrainOutcome` | src/timer/wheel/core.rs:220-262 | descending swap-removes on one slot either take exactly the requested positions or lose an entry nobody requested |
| `WheelCancels.SafeIffHarmless` | src/timer/wheel/core.rs:192-273 | the condition on a batch (a live id is repeated only if everything behind it in its slot is requested too) holds exactly when no repetition removes anything |
| `WheelCancels.UnsafeBatchLoses` | src/timer/wheel/core.rs:220-262 | whenever the condition fails, some timer that was not requested is lost |
| `WheelCancels.RepeatableIffAlwaysSafe` | src/timer/wheel/core.rs:192-273 | the condition a caller can read off the timers (a live id is repeated only together with all timers of its slot) holds if and only if the batch is safe on every wheel that holds these timers |
| `WheelCancels.DistinctIsRepeatable` | src/timer/wheel/core.rs:192-273 | a batch that repeats no live id meets that condition |
| `WheelCancels.RepeatedCancelLosesNeighbour` | src/timer/wheel/core.rs:220-262 | on a new wheel with two timers of equal delay, cancelling the first one twice empties the slot |
| `WheelCancels.LostIsStranded` | src/timer/wheel/core.rs:249-262 | the timer lost stays in the index, which is then wrong |
| `WheelCancels.TrackRemoval` | src/timer/wheel/core.rs:220-262 | while a slot is served, in every batch, the index finds every entry still queued, and exactly the requested ids have left it |
| `WheelCancels.BatchOutcome` | src/timer/wheel/core.rs:192-273 | a batch that meets the condition cancels exactly its live ids and counts them |
| `TimingWheels.TimingWheel.BatchCancelTimers` | src/timer/wheel/core.rs:192-273 | for every batch: the slots left, what the index holds, the count, and the cache, dropped exactly if some timer lost expired within a millisecond of it; the wheel stays one if and only if the condition holds, and then its schedule is that of cancelling the set of ids; otherwise an unrequested timer is lost |
| `TaskModel.StepKeepsOk` | src/timer/task/global.rs:161-212 | every command and every tick keeps the three indexes equal, no set empty, and issued ids = live + fired + cancelled; a batch cancel if it repeats live ids only together with all timers of their slots, a batch registration if no expiry wraps to before the clock |
| `TaskModel.TurnKeepsOk` | src/timer/task/global.rs:110-149 | asking for the next expiry before each such step keeps the cache a lower bound of every live expiry |
| `TaskModel.AddKeepsCacheIff` | src/timer/wheel/core.rs:303-312 | without asking first, one addition keeps the cache a lower bound if and only if the cache was filled or the new timer is not later than any live one |
| `TaskModel.CacheCanOverrun` | src/timer/wheel/core.rs:303-312 | add, add, cancel, add without asking: the cache ends up beyond a live timer |
| `TaskModel.NeverOversleeps` | src/timer/task/global.rs:573-589 | in every state of every allowed run the wakeup chosen lies between now + 5 ms and the later of that and the earliest expiry |
| `TaskModel.WakesForATimer` | src/timer/task/global.rs:573-589 | with an exact or empty cache, a wakeup later than 5 ms from now is the expiry of a live timer, or a second from now without timers |
| `TaskModel.StepEnds` | src/timer/task/global.rs:339-533 | such a step ends exactly the timers its command names or its tick finds due, and no id is ever reused |
| `TaskModel.StepCounts` | src/timer/task/global.rs:339-533 | the timers a tick ends are counted as processed, those any other command ends as cancelled |
| `TaskModel.FiresExactlyOnce` | src/timer/task/global.rs:403-533 | over every run, up to the first batch cancel that repeats a live id harmfully or batch registration with an expiry that wraps to before the clock, a timer is live until the first command that ends it and never after; it fires exactly in a turn that is its first end and a tick at or after its expiry |
| `TaskModel.RegistrationIsLive` | src/timer/task/global.rs:216-257 | a registration creates a live timer under an id never used before |
| `TaskModel.BatchMembersAreLive` | src/timer/task/global.rs:264-335 | so does every member of such a batch registration, under consecutive ids, with the expiry of its lane; that is the one of a single registration if and only if it fits 64 bits, counted from the start |
| `TaskModel.ClockCatchesUp` | src/timer/wheel/core.rs:414-416 | after an advance the clock is within one slot of `now` if and only if the jump was at most one revolution; a longer jump moves it by exactly one |
| `TaskModel.RegisterAllShape` | src/timer/task/global.rs:264-335 | a batch registration is one batch of the wheel with consecutive event ids |
| `GlobalTimerTasks.GlobalTimerTask.constructor` | src/timer/task/global.rs:67-93 | the whole state of a new task: 512 slots of 10 ms, no timer, ids from 1; it meets the run invariant |
| `GlobalTimerTasks.GlobalTimerTask.RegisterTimer` | src/timer/task/global.rs:216-257 | the new timer in the wheel and in both indexes, and its id |
| `GlobalTimerTasks.GlobalTimerTask.BatchRegisterTimers` | src/timer/task/global.rs:264-335 | wheel and indexes go on agreeing if and only if no expiry wraps to before the clock, and then it is the step of the run; equal to registering the list one by one if and only if every expiry fits 64 bits; consecutive ids |
| `GlobalTimerTasks.GlobalTimerTask.CancelTimer` | src/timer/task/global.rs:403-426 | exactly that id leaves wheel and indexes; true if and only if it was live |
| `GlobalTimerTasks.GlobalTimerTask.BatchCancelTimers` | src/timer/task/global.rs:339-399 | wheel and indexes go on agreeing if and only if the condition of the wheel holds, and then exactly the live ids leave; otherwise the task keeps an id that is queued nowhere; the failures are exactly the requests whose id was not live or already taken |
| `GlobalTimerTasks.GlobalTimerTask.ClearConnectionTimers` | src/timer/task/global.rs:429-451 | exactly the timers of that connection leave, whatever the order of the set, and are counted |
| `GlobalTimerTasks.GlobalTimerTask.AdvanceTimingWheel` | src/timer/task/global.rs:455-533 | fires exactly the due timers, each once, and unlinks them from both indexes |
| `GlobalTimerTasks.GlobalTimerTask.GetNextWakeupTime` | src/timer/task/global.rs:573-589 | with an empty cache, a second from now without timers, else the earliest expiry of a live timer but at least 5 ms from now; with a filled cache the cached value in its place; and the cache it leaves |
| `Bytes.BigEndianRoundTrip` | src/packet/header.rs:41-49 | a value that fits its width is read back from its big-endian bytes |
| `Bytes.BigEndianBytes` | src/packet/header.rs:41-49 | the value of every byte, most significant first |
| `Frames.CommandFromByte` | src/packet/command.rs:40-54 | finds the command of a byte exactly when one has it |
| `Frames.EncodedSizeIsLength` | src/packet/frame.rs:604-620 | the size the packers reckon with is the number of bytes written, for every frame |
| `Frames.Decode` | src/packet/frame.rs:311-378 | every success consumes at least one byte and no more than there are |
| `Frames.ShortRoundTrip` | src/packet/header.rs:41-70 | a short header is read back field by field |
| `Frames.LongRoundTrip` | src/packet/header.rs:97-120 | a long header is read back field by field |
| `Frames.SurvivesWireIff` | src/packet/frame.rs:311-426 | a frame comes back from every datagram, consuming exactly its own bytes, if and only if its command and length field are right |
| `Frames.EncodeDecode` | src/packet/frame.rs:311-426 | re-encoding whatever was decoded reproduces the bytes consumed |
| `Frames.FixedFramesAreRead` | src/packet/frame.rs:190-230 | a ping and an end of stream are read back with every header field as given |
| `Frames.HandshakeIsRead` | src/packet/frame.rs:232-262 | both handshake frames are read back with each identifier in its own place |
| `Frames.PathFramesAreRead` | src/packet/frame.rs:264-305 | both path frames are read back with their data, and with window and acknowledgement zero |
| `Frames.NewPushSafeIff` | src/packet/frame.rs:143-162 | a data frame is read back if and only if its payload is shorter than 65536 bytes; beyond that the length field is cut off |
| `Frames.NewPushIsRead` | src/packet/frame.rs:143-162 | what the peer reads of a data frame: every header field as given, and the payload up to its length modulo 65536 |
| `Frames.ShortLayout` | src/packet/header.rs:41-49 | the byte of each command and the bytes of each field of a short header |
| `Frames.LongLayout` | src/packet/header.rs:97-120 | the same of a long header |
| `Frames.DecodeIff` | src/packet/frame.rs:311-378 | which bytes hold a frame and how many it takes, told from the first byte, the length field and the length of the buffer |
| `Datagrams.SerializeFrames` | src/socket/transport/udp.rs:161-167 | the datagram is the frames end to end |
| `Datagrams.DeserializeFrames` | src/socket/transport/udp.rs:240-266 | decodes frames until the first that cannot be decoded |
| `Datagrams.DatagramRoundTrip` | src/socket/transport/udp.rs:161-266 | any list of wire-safe frames comes back from its datagram unchanged |
| `Datagrams.DatagramsUnambiguous` | src/socket/transport/udp.rs:161-266 | two lists of wire-safe frames never share a datagram |
| `Datagrams.ReencodingIsPrefix` | src/socket/transport/udp.rs:240-266 | re-encoding what was decoded from any bytes gives back exactly the part decoded, and the rest starts with no frame |
| `Datagrams.EncodeSackRanges` | src/packet/sack.rs:34-39 | the ranges end to end |
| `Datagrams.DecodeSackRanges` | src/packet/sack.rs:46-54 | decodes whole ranges while eight bytes are left |
| `Datagrams.RangesRoundTrip` | src/packet/sack.rs:34-54 | ranges survive the wire, and fewer than eight stray bytes are ignored |
| `Datagrams.RangesLayout` | src/packet/sack.rs:34-39 | the eight bytes of every range: first its start, then its end |
| `Datagrams.RangesInBytes` | src/packet/sack.rs:46-54 | any bytes hold as many ranges as whole groups of eight, each read from its own group |
| `Datagrams.AckDeliversRangesIff` | src/packet/frame.rs:165-187 | an acknowledgement is read back with all its ranges if and only if there are at most 8191 |
| `Datagrams.AckReadsBack` | src/packet/frame.rs:165-187 | the ranges and every header field as given reach the peer together |
| `Packing.PacketSizeIsLength` | src/socket/transport/udp.rs:161-167 | the packet size reckoned with is the length of the datagram |
| `Packing.PackKeepsFrames` | src/core/endpoint/core/sender.rs:45-67 | greedy packing keeps every frame in order; every packet is non-empty and within the limit or a single oversized frame |
| `Packing.PackIsOptimal` | src/core/endpoint/core/sender.rs:45-67 | no order-preserving split into packets that are within the limit or a single frame uses fewer packets |
| `Packing.PacketsReadBack` | src/core/endpoint/core/sender.rs:45-92 | each packet sent as a datagram is read back as packed |
| `Packing.PacketBuilder.Flush` | src/core/endpoint/core/sender.rs:83-92 | sends what is buffered; a closed channel loses it and fails |
| `Packing.PacketBuilder.AddFrame` | src/core/endpoint/core/sender.rs:45-54 | starts a new packet exactly when the frame does not fit behind what is buffered |
| `Packing.PacketBuilder.AddFrames` | src/core/endpoint/core/sender.rs:59-64 | from any buffered packet, the packets are the greedy packing of all the frames |
| `Packing.SendFrames` | src/core/endpoint/core/sender.rs:223-233 | a fresh builder sends exactly the greedy packing |
| `Packing.PacketizeZeroRtt` | src/core/reliability/packetizer.rs:81-148 | the same packets a builder makes of the handshake frame followed by the data frames; the handshake frame comes first, the rest carries the stream and fills the windows |
| `Packing.InitialPacketFits` | src/core/endpoint/core/sender.rs:139-168 | data that passed the check of the public constructor always satisfies the assertion of the first packet, for every payload size, capacity and window |
| `Packing.InitialCheckIsExact` | src/socket/handle/initial_data.rs:39-65 | when there is no data, or buffer and windows take all of it, the packet fits if and only if the check passes |
| `Packing.InitialChunkSizes` | src/socket/handle/initial_data.rs:51-57 | how many frames initial data needs and how many bytes they carry |
| `Packing.InitialFramesCarry` | src/core/endpoint/core/sender.rs:139-168 | the first packet is the handshake request and data frames numbered from zero that carry the front of the data and fill the windows |
| `SendBuffers.SendBuffer.WriteToStream` | src/core/reliability/send_buffer.rs:38-55 | the bytes taken are appended to the stream; size within capacity; a write that falls short leaves the buffer full |
| `SendBuffers.SendBuffer.CreateChunk` | src/core/reliability/send_buffer.rs:58-81 | the chunk, the queue left, and when the size counter stays exact |
| `SendBuffers.SendBuffer.IsStreamBufferEmpty` | src/core/reliability/send_buffer.rs:94-96 | true exactly if no block is queued; a block without bytes counts as one |
| `SendBuffers.NextChunkKeepsStream` | src/core/reliability/send_buffer.rs:58-81 | a chunk is the front of the stream, not empty, not too long; none only if no byte waits |
| `SendBuffers.ChunkingKeepsStreamIff` | src/core/reliability/send_buffer.rs:58-81 | no byte is lost if and only if the chunk size is positive or nothing waits: size zero throws the whole queue away |
| `Packetizers.PermitRespectsWindowsIff` | src/core/reliability/packetizer.rs:47-54 | in flight plus permit exceeds neither window it did not exceed before, if and only if the in-flight count fits 32 bits or its low 32 bits still fill the smaller window |
| `Packetizers.ChunksAreFront` | src/core/reliability/packetizer.rs:56-73 | exactly the smaller of permit and the sum of block lengths over payload size rounded up; the payloads and the queue left are the stream |
| `Packetizers.CuttingEmptiesIff` | src/core/reliability/packetizer.rs:56-73 | cutting empties the stream if and only if the permit covers every frame it needs |
| `Packetizers.CutFillsWindows` | src/core/reliability/packetizer.rs:47-73 | what is cut goes to the peer of the context with its acknowledgement, window and timestamp, carries the front of the stream, and leaves no byte waiting while both windows are open |
| `Packetizers.Packetize` | src/core/reliability/packetizer.rs:29-73 | the frame put in front stays in front; behind it go data frames for the peer under consecutive numbers from the counter, and they and the queue left are the stream; they are as many as both windows allow beyond those in flight, unless nothing is left to send |
| `Packetizers.ChunkCrossesWire` | src/core/reliability/packetizer.rs:56-73 | every chunk is read from the wire under its own number with every header field as given, for a payload size below 65536 |
| `ReceiveBuffers.ReceiveBuffer.WindowSize` | src/core/reliability/recv_buffer.rs:63-65 | the free capacity if and only if it fits 16 bits |
| `ReceiveBuffers.ReceiveBuffer.IsEmpty` | src/core/reliability/recv_buffer.rs:75-77 | true exactly if no number is held |
| `ReceiveBuffers.ReceiveBuffer.ReceivePush` | src/core/reliability/recv_buffer.rs:84-104 | accepted exactly if the stream has not ended, the number is not below the next one and not held; then it is held with its payload |
| `ReceiveBuffers.ReceiveBuffer.ReceiveFin` | src/core/reliability/recv_buffer.rs:110-128 | the same rule for the end of the stream |
| `ReceiveBuffers.ReceiveBuffer.TryPopNextContiguous` | src/core/reliability/recv_buffer.rs:177-186 | pops the next number exactly if it is held |
| `ReceiveBuffers.ReceiveBuffer.Reassemble` | src/core/reliability/recv_buffer.rs:142-174 | the delivery and the state left, for every run that stops short of the last number |
| `ReceiveBuffers.DrainTakesRun` | src/core/reliability/recv_buffer.rs:142-174 | a delivery is exactly the unbroken run of data from the next number on; the end is seen if and only if it stops the run; what lies beyond a gap is kept |
| `ReceiveBuffers.ReceiveBuffer.GetSackRanges` | src/core/reliability/recv_buffer.rs:191-225 | ascending, disjoint, non-adjacent ranges that cover exactly the numbers held; the end of a range plus one never overflows |
| `ReceiveBuffers.RangesAreUnique` | src/core/reliability/recv_buffer.rs:191-225 | there is only one such list of ranges for a set of numbers |
| `StreamPipeline.StepKeepsOk` | src/core/reliability.rs:236-390 | every step of writer, packetizer, network and reader keeps the whole invariant of the stream |
| `StreamPipeline.WriteTakesWhatFits` | src/core/reliability/send_buffer.rs:38-55 | a write appends the front of the data, and falls short only by filling the buffer |
| `StreamPipeline.ArrivalIsAccepted` | src/core/reliability/recv_buffer.rs:84-128 | before the end, every number sent, other than that of a path challenge, has been accepted once it arrives |
| `StreamPipeline.DeliveredIsPrefix` | src/core/reliability.rs:236-390 | over every run with loss, repetition and reordering, the bytes delivered are a prefix of the bytes accepted |
| `StreamPipeline.EachNumberOnce` | src/core/reliability/recv_buffer.rs:84-186 | every delivered payload is the payload of its own number, each number at most once and in order |
| `StreamPipeline.EndOfStream` | src/core/endpoint/core/sender.rs:96-124 | the end is reported at most once; then the reader has exactly the data numbered below it, which is everything accepted when it was numbered if and only if nothing was waiting |
| `StreamPipeline.ClosingLosesNothingIff` | src/core/endpoint/core/sender.rs:96-124 | cutting and then numbering the end leaves nothing behind if and only if the permit covered every frame the buffered data needs |
| `StreamPipeline.NothingAfterEnd` | src/core/reliability/recv_buffer.rs:142-174 | after the end nothing is delivered or reported again, in any continuation |
| `StreamPipeline.ChallengeBlocksStream` | src/core/endpoint/core/handlers.rs:39-46 | a path challenge spends a number that never enters the receive buffer: nothing at or above it is ever delivered, in any continuation |
| `StreamPipeline.AckIsExact` | src/core/reliability.rs:405-411 | until the end is processed, next number and ranges name exactly the accepted numbers |
| `StreamPipeline.AckStaysExactIff` | src/core/reliability/recv_buffer.rs:142-174 | a reassembly keeps that exact if and only if it does not reach the end of the stream while a number beyond the end is held |
| `StreamPipeline.EndIsFinal` | src/core/reliability/recv_buffer.rs:84-144 | after the end no run accepts or acknowledges anything more, so what was lost stays lost |
| `StreamPipeline.AckTellsPeer` | src/core/reliability.rs:405-411 | the same read from the encoded and decoded acknowledgement frame |
| `StreamPipeline.EndForgetsLaterData` | src/core/reliability/recv_buffer.rs:158-163 | a run from a fresh connection in which accepted data beyond the end stops being acknowledged |
| `StreamPipeline.EndCanOvertakeData` | src/core/endpoint/core/sender.rs:110-124 | a run from a fresh connection in which the end is numbered while a byte waits: the end is reported and the byte never delivered, in any continuation |
| `StreamPipeline.ChallengeCanStallData` | src/core/endpoint/core/handlers.rs:39-46 | a run from a fresh connection in which data numbered after a path challenge is accepted and never delivered, in any continuation |
| `StreamPipeline.ReassemblyDeliversAll` | src/core/reliability/recv_buffer.rs:142-174 | once everything has arrived, exactly the data before the first number that is not data is delivered |
| `StreamPipeline.AllIsDeliveredIff` | src/core/reliability.rs:387-389 | then the reader gets all that was cut if and only if no data was numbered after a path challenge or after the end |
| `StreamPipeline.FairRunDelivers` | src/core/reliability.rs:343-389 | over every run in which the network brings each number sent at least once, in any order and among anything else, the next reassembly completes the delivery of all data before the first number that is not data, and the end is reported exactly if that is it |
| `StreamPipeline.FairRunDeliversAllIff` | src/core/reliability.rs:343-389 | over every such run the reader gets all that was cut if and only if no data was numbered after a path challenge or after the end |
| `WirePipeline.DatagramArrives` | src/socket/transport/udp.rs:240-266 | decoding a datagram and acting on its frames does what the arrival of their numbers does, in order, whatever the other header fields of each transmission |
| `WirePipeline.WireRunIsReachable` | src/core/reliability.rs:236-390 | every run in which real datagrams are lost, repeated and reordered, with frames put together in any way, ends in a state of the pipeline, for payload sizes below 65536 |
| `WirePipeline.WireDeliversPrefix` | src/socket/transport/udp.rs:161-266 | so over every such run the bytes delivered are a prefix of the bytes accepted |
| `RouterModel.KeysApart` | src/socket/event_loop/routing.rs:91-106 | no identifier shares a cache key with an address or with another identifier |
| `RouterModel.SameKeyIff` | src/socket/event_loop/routing.rs:91-106 | two early frames share a key if and only if they name the same identifier, or none and their address hashes agree below the highest bit |
| `RouterModel.RunKeepsOk` | src/socket/event_loop/routing.rs:120-302 | over every run each identifier is the target of at most one address, every route leads to an active connection, active and resting identifiers are disjoint, and early frames are filed under their own key |
| `RouterModel.OpenKeepsRoutingIff` | src/socket/event_loop/routing.rs:205-236 | registering keeps that if and only if the identifier is not resting and no other address leads to it |
| `RouterModel.MigrationKeepsRoutingIff` | src/socket/event_loop/routing.rs:243-264 | an address update keeps that if and only if the connection is active; otherwise a route to nowhere is left |
| `RouterModel.OpenTakesAddress` | src/socket/event_loop/routing.rs:205-236 | a new connection takes over its address alone; whoever had it is retired and rests; every other connection is untouched |
| `RouterModel.MigrationMovesRoute` | src/socket/event_loop/routing.rs:243-264 | exactly the new address leads to the connection afterwards; others lose at most that address |
| `RouterModel.RemovalUnroutes` | src/socket/event_loop/routing.rs:274-302 | a removed connection has no route left and rests from now, nothing else changes, an unknown identifier changes nothing |
| `RouterModel.RecentKeepsOrder` | src/socket/event_loop/routing.rs:442-449 | the frames kept are picked at ascending positions, which are exactly those of frames below the age limit |
| `RouterModel.SweepKeepsRecentIff` | src/socket/event_loop/routing.rs:438-455 | under every key exactly the frames below the age limit stay, picked at ascending positions |
| `RouterModel.EndingStartsRest` | src/socket/event_loop/routing.rs:274-302 | however a connection ends, its identifier rests from that moment |
| `RouterModel.EndedIsNotReissued` | src/socket/event_loop/session_coordinator.rs:117-131 | in any run without such a sweep the identifier is neither active nor can it be generated |
| `RouterModel.ReissueFollowsSweep` | src/socket/event_loop/draining.rs:50-67 | an identifier in use again, or free to be generated again, was released by a sweep at least the rest period after its connection ended |
| `RouterModel.RestEndsIff` | src/socket/event_loop/routing.rs:318-320 | of everything that can happen to the router, exactly a sweep at or after the end of the rest period ends the rest of an identifier |
| `RouterModel.DrainingSweepIff` | src/socket/event_loop/draining.rs:50-67 | a sweep of the pool keeps exactly the identifiers still within the rest period, with their times, and touches nothing else |
| `RouterModel.DispatchGoesToTarget` | src/socket/event_loop/routing.rs:120-191 | a frame is handed to exactly the connection its identifier, or else its address, names, if that one still receives; otherwise that connection ends and rests; without one, the frame is refused if its identifier is resting, kept if it is a data frame and dropped otherwise |
| `RouterModel.FramesNameTheirPeer` | src/packet/frame.rs:143-305 | the destination of every frame made for a peer is the identifier of that peer |
| `RouterModel.DataReachesItsConnection` | src/socket/event_loop/routing.rs:120-147 | a data frame encoded, decoded and dispatched is handed to the connection it was made for, from any address, and changes nothing else |
| `RouterModel.ReachableFromAnywhereIff` | src/socket/event_loop/routing.rs:134-147 | a connection is reached by its identifier from every address if and only if that identifier is not zero |
| `RouterModel.PartsSplitFrames` | src/socket/event_loop/routing.rs:383-409 | the frames under a key are shared out between those forwarded and those put back |
| `RouterModel.PartsKeepOrder` | src/socket/event_loop/routing.rs:383-409 | both parts are picked from the list at ascending positions, which are exactly the matching ones and exactly the others |
| `RouterModel.OpenForwardsExactly` | src/socket/event_loop/routing.rs:363-429 | with an open channel exactly the matching early frames under the two keys are handed over, each once, in order of arrival per key; all others stay, in order, whatever the hash does |
| `RouterModel.NothingForItIsLeft` | src/socket/event_loop/routing.rs:363-429 | afterwards no early frame for the connection is left under any key and every other one is |
| `RouterModel.HandedAreForIt` | src/socket/event_loop/routing.rs:363-429 | what a new connection is handed are exactly the early frames for it, wherever they were cached |
| `RouterModel.ClosedLosesIff` | src/socket/event_loop/routing.rs:383-402 | with a closed channel nothing is handed over, and frames under a key are lost if and only if one of them matches |
| `FrameRouters.DrainingPool.Insert` | src/socket/event_loop/draining.rs:37-39 | the identifier rests from now |
| `FrameRouters.DrainingPool.Cleanup` | src/socket/event_loop/draining.rs:51-67 | exactly the identifiers younger than the timeout stay |
| `FrameRouters.FrameRouter.GetCacheKey` | src/socket/event_loop/routing.rs:91-106 | the key, and which half of the key space it lies in |
| `FrameRouters.FrameRouter.DispatchFrame` | src/socket/event_loop/routing.rs:120-191 | carries out the dispatch step and keeps the invariant |
| `FrameRouters.FrameRouter.RegisterConnection` | src/socket/event_loop/routing.rs:205-236 | carries out the registration step and keeps the invariant exactly for an unclaimed identifier |
| `FrameRouters.FrameRouter.UpdateConnectionAddress` | src/socket/event_loop/routing.rs:243-264 | drops the old route, adds the new; invariant kept exactly for active connections |
| `FrameRouters.FrameRouter.RemoveConnectionByCid` | src/socket/event_loop/routing.rs:274-302 | leaves the active set and the routes, starts to rest; nothing for an unknown identifier |
| `FrameRouters.FrameRouter.ForwardCachedFrames` | src/socket/event_loop/routing.rs:363-429 | identifier key first, then address key |
| `FrameRouters.FrameRouter.ForwardUnder` | src/socket/event_loop/routing.rs:383-409 | send, put back or stop, frame by frame |
| `FrameRouters.FrameRouter.CleanupExpiredFrames` | src/socket/event_loop/routing.rs:438-455 | keeps exactly the recent frames and no empty list |
| `FrameRouters.FrameRouter.CleanupDrainingPool` | src/socket/event_loop/routing.rs:318-320 | sweeps the pool and nothing else |
| `FrameRouters.GenerateUniqueConnectionId` | src/socket/event_loop/session_coordinator.rs:117-131 | the first draw that is neither active nor resting |

## Left out

- Step: a batch cancel that repeats a live id harmfully is not a step of a run (`TaskModel.CommandOk`), because the wheel then drops timers nobody named and its index is wrong for good; what such a batch leaves behind is stated by the two methods `BatchCancelTimers` only. Neither is a batch registration with an expiry that wraps to before the clock, which leaves a timer in a slot the pointer has passed; what it leaves is stated by `TimingWheel.BatchAddTimers` only.
- TimingWheel.constructor: slot counts above 2^32 are excluded, since the batch path masks with 32 bits.
- RegistrationIsLive: a delay counts from the wheel's clock, which may lag behind the wall clock; `TaskModel.ClockCatchesUp` says by how much.
- Advance: the number of slots passed is taken to fit 64 bits, as the cast in the code assumes; the same holds for `AdvanceTimingWheel`.
- SimdCalculateBatchMetadata: the slot duration is taken to fit 64-bit nanoseconds.
- BatchAddTimers: the slot duration is taken to fit 64-bit nanoseconds and the id counter 64 bits; the sum of a remainder lane wraps as in a release build, where a debug build panics.
- Packetize: the sequence counter is taken to stay below 2^32; the code panics or wraps there. The same holds in `StreamPipeline`.
- Reassemble: the run taken is assumed to stop short of number 2^32 - 1, since stepping past it overflows.
- DeliveredIsPrefix: a positive payload size is required, as everywhere in the code; `SendBuffers.ChunkingKeepsStreamIff` says what size zero does.
- PacketBuilder: the transport is an open or closed channel and the list of packets sent; an error in between is the closed channel.
- ForwardUnder: a channel is open or closed for the whole of one forwarding; its bounded capacity only delays the sender and is not modelled.
- GenerateUniqueConnectionId: the random source is a list of draws; the loop of the code has no end when every identifier is taken.
- Hash maps are visited in any order; the hash of an address is an arbitrary function, so collisions are covered.
- The event payloads of timers, callbacks, statistics, the change of the tick interval, and commands that only report.
- The parallel timer system, event pools, ring buffers and zero-copy dispatchers: maps, counters and library queues around the same wheel.
- `simd_batch_slot_calculation`, `simd_analyze_slot_distribution` and `simd_batch_update_mappings`: their results are not used by the operations modelled.
- Selective and simple retransmission, round-trip estimation and congestion control: retransmission is the network delivering a packet again, the congestion window an arbitrary number.
- The connection lifecycle table and the per-frame processors: small case distinctions with no property across operations.
- Tasks, channels, sockets, rebinding, polling and the size of the receive buffer of the socket.
- Logging, error types, configuration, benchmarks.

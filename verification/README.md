# Ringmaster's loss-recovery transport, modelled and proved

Ringmaster sends encoded video over UDP. The sender cuts each frame into datagrams, tracks the ones
not yet acknowledged, retransmits selectively, and after a second without an acknowledgement gives
up, forgets everything and forces a key frame. The receiver acknowledges every datagram, reassembles
frames, dispatches them in order, and skips ahead when a key frame further on is complete. This
project models both ends, the wire format between them, a network that loses, duplicates and
reorders, and the hand-off to the decoding thread, and proves what the whole keeps over every run.

## How it is built

Objects that the program updates in place are classes here (`WireParser`, `Frame`, `Decoder`,
`Encoder`, `Poller`, `VideoSender`). Their methods follow the program's loops and branches, and each
is proved to compute a function on plain state values; the theorems are about those functions and
about every sequence of them.

| file | what it holds |
|---|---|
| `Wire.dfy`, `Protocol.dfy` | big-endian numbers, the parsing cursor, datagrams and messages, round trips |
| `Packetizer.dfy` | the fragment count, the size law, reassembly, the decoding buffer |
| `Frames.dfy` | one frame's slots and counters |
| `Decoder.dfy`, `Confluence.dfy`, `Receiver.dfy` | the receiver, the frontier as a function of the set received, the main loop |
| `Rtt.dfy`, `Encoder.dfy` | RTT estimation, packetizing, acknowledgements, retransmissions |
| `Sender.dfy` | the poller and the three event callbacks |
| `Transport.dfy`, `TransportSteps.dfy`, `Guarantees.dfy` | sender, network and receiver as one system; its invariant; whole-run theorems |
| `Behaviour.dfy` | what each sender operation does in any reachable state, in terms of queue, tracked entries and time |
| `Recovery.dfy` | from every reachable state the receiver can catch up; what the worker decodes over whole runs |
| `EventLoop.dfy` | both programs, driven by callbacks and arriving datagrams, are runs of that system |
| `Worker.dfy` | main and worker thread over every interleaving |

An ordered map is modelled by a map walked in ascending key order (`Decoder.frameBuf`) or by its
entries listed in ascending key order (`Encoder.unacked`); an exception is a `Throw` result.

## Assumptions

- Timestamps never run backward during a run. The program reads the wall clock
  (`src/util/timestamp.cc`), so a clock adjustment breaks this. Timestamps fit 64 bits; RTT samples
  are truncated to 32 bits exactly as the program does.
- The RTT average is computed over exact rationals instead of `double`.
- The codec returns one non-empty frame per image, and a key frame when one is forced.
- A run produces fewer than 2^32 - 1 frames, so frame ids do not wrap.
- Only datagrams this sender wrote and acknowledgements this receiver wrote arrive. The parsing
  functions themselves are modelled and proved on arbitrary bytes.

## Findings

- `protocol.hh` describes `max_payload` as the maximum size of a payload. The fragment count
  `size / (max_payload + 1) + 1` does not keep it: a frame of `2 * max_payload + 1` bytes is cut in two
  and its second payload is one byte over, so at the default MTU a frame of 2911 bytes makes a
  1501-byte packet (`OverlongPacket`). `FitCondition` and `FrameFitsMtu` give the exact condition, for
  all sizes: the frame size is at most the fragment count times the limit.
- The decoding buffer holds 1 000 000 bytes, but the bounds test refuses to fill its last byte, and the
  sender knows no such limit: a frame of 1 000 000 bytes is 687 fragments at the default MTU, travels
  and is dispatched, and then ends the worker thread (`MillionByteFrame`). `WorkerOverRuns` gives the
  exact condition over whole runs: the worker throws exactly when the encoder produced 1 000 000 bytes
  or more for a dispatched frame.
- The composed system is the sender's three callbacks, the network and the receive loop. There the only
  exceptions are the one for a frame of more than 65535 fragments (`OnlyOversizeThrows`) and the end of
  the video input (`ProgramsFollowRun`). The worker thread's only exception of its own is the one above.

## Model

| member | source | states |
|---|---|---|
| Receiving.LoopConfluence | src/app/video_receiver.cc:106-130 | for any arrival order, loss and duplication of consistent datagrams the loop never throws, the next frame is the first incomplete id beyond the latest complete key frame ever received, the buffer holds exactly what was received from there on, and what was dispatched is a decodable chain of the true frames |
| Receiving.ArrivalOrderIrrelevant | src/app/decoder.cc:113-185 | two runs that receive the same set of fragments end with the same frontier, the same buffered frames and the same buffered payloads |
| Receiving.ReceiveLoop | src/app/video_receiver.cc:106-130 | the loop over received binaries, in place: its new state, and exactly the acknowledgements it sent, also when it throws |
| Receiving.AcksSentAnswer | src/app/video_receiver.cc:107-115 | acknowledgements answer the binaries in order, each with the number and send time of the copy received; a loop that ends well answers all |
| Receiving.AcksSentUpToThrow | src/app/video_receiver.cc:107-123 | when the loop throws, either the binary behind the acknowledged ones does not parse, or the last acknowledged one is the one that throws; everything before was handled well |
| Receiving.FirstBadBinaryThrows | src/app/video_receiver.cc:107-123 | the first binary shorter than 17 bytes, or the first datagram the decoder refuses, ends the loop with that exception, whatever comes behind it |
| Receiving.ReceiveRound | src/app/video_receiver.cc:107-129 | one round: refuse what does not parse, acknowledge, add, drain |
| Confluence.SettledIsFrontier | src/app/decoder.cc:154-185 | the stopping condition of the drain loop (reachable, next frame incomplete, no complete key frame ahead) characterises the frontier, both ways |
| Confluence.FrontierIsLargestChain | src/app/decoder.cc:154-185 | the frontier is the largest id reachable over complete frames from 0 or from beyond a complete key frame |
| Confluence.FrontierGrows | src/app/decoder.cc:242-248 | receiving more never moves the frontier back |
| Confluence.KeyFrameRecovers | src/app/decoder.cc:164-182 | a key frame received in full is behind the frontier whatever was lost before it |
| Confluence.AddKeepsMatch | src/app/decoder.cc:113-152 | a consistent datagram never throws, and adding it, also when it is dropped as old or a duplicate, is adding its number to the set received |
| Confluence.DrainSettles | src/app/video_receiver.cc:126-129 | draining ends exactly at the frontier of the set received, extends the dispatched sequence, and keeps it a decodable chain |
| Decoding.Sought | src/app/decoder.cc:154-185 | seeking succeeds exactly when the next frame or some buffered key frame is complete; it moves only when the next frame is not, then strictly forward, to the latest complete key frame, and prunes exactly what lies before |
| Decoding.Drained | src/app/video_receiver.cc:126-129 | draining terminates, and then neither the next frame nor any buffered key frame is complete |
| Decoding.Decoder.AddDatagramCommon | src/app/decoder.cc:113-132 | drops old datagrams, opens a frame on its first datagram, throws for a frame without fragments |
| Decoding.Decoder.AddDatagram | src/app/decoder.cc:134-152 | inserts into its frame only, all others untouched |
| Decoding.AddedExactly | src/app/decoder.cc:113-152 | what any datagram does, also one that contradicts earlier ones: old frames are dropped, a new frame takes its type and count from the datagram and must have room for it, an existing one must agree, and only that frame changes |
| Decoding.Decoder.CleanUpTo | src/app/decoder.cc:250-259 | stopping at the first key to stay is the same as keeping all keys at or beyond the frontier |
| Decoding.Decoder.AdvanceNextFrame | src/app/decoder.cc:242-248 | moves the frontier and prunes up to it |
| Decoding.Decoder.SeekKeyFrame | src/app/decoder.cc:164-182 | the backward walk finds the largest complete key id, or there is none |
| Decoding.Decoder.NextFrameComplete | src/app/decoder.cc:154-185 | the in-place form of seeking; the id skipped to is always greater than the next frame |
| Decoding.Decoder.ConsumeNextFrame | src/app/decoder.cc:187-240 | throws, changing nothing, exactly when the next frame is missing or incomplete; else dispatches it and advances by one |
| Decoding.Decoder.Drain | src/app/video_receiver.cc:126-129 | consuming never throws after seeking succeeded; the buffer shrinks each round |
| Frames.InsertOrderIrrelevant | src/app/decoder.cc:50-82 | for datagrams whose payloads are determined by their fragment ids, two sequences with the same ids, in any order and with any duplicates, leave the same filled slots, payloads, counter and size |
| Frames.FilledByIds | src/app/decoder.cc:50-82 | after any compatible inserts the filled slots, the empty-slot counter and completeness are the function of the fragment ids they should be, and no insert throws |
| Frames.CompleteMeansFilled | src/app/decoder.hh:42-42 | the counter test for completeness holds exactly when every slot is filled |
| Frames.SizeIsContentLength | src/app/decoder.cc:41-48 | the incrementally kept size of a complete frame is the length of its content |
| Frames.Frame.Create | src/app/decoder.cc:16-24 | a frame starts with all slots empty; zero fragments throw |
| Frames.Frame.InsertFrag | src/app/decoder.cc:50-82 | incompatible datagrams throw and change nothing, duplicates change nothing, others fill their slot; the counters stay right and never underflow |
| Frames.InsertedExactly | src/app/decoder.cc:50-82 | a datagram is refused exactly when frame, type or count differ or its slot does not exist; the first copy fills its slot, later ones change nothing |
| Frames.Frame.FrameSize | src/app/decoder.cc:41-48 | known exactly for complete frames |
| Frames.DecodeFrame | src/app/decoder.cc:261-286 | throws exactly for incomplete frames and for complete ones of 1 000 000 bytes or more; else the start of the buffer is the frame's content |
| Packetizer.CopyPayloads | src/app/decoder.cc:267-286 | the copy loop concatenates the payloads, and throws exactly when they total 1 000 000 bytes or more |
| Packetizer.ReassembleFragments | src/app/encoder.cc:208-226 | concatenating the fragments gives the frame back, for every size and limit |
| Packetizer.FragmentSizes | src/app/encoder.cc:216-226 | all fragments but the last have the limit's size; the last has s/(m+1) + s%(m+1) bytes, at least one |
| Packetizer.FitCondition | src/app/encoder.cc:209-219 | every payload respects the limit exactly when the frame size is at most the count times the limit |
| Packetizer.FitThreshold | src/app/encoder.cc:209-219 | so frames up to twice the limit always fit, and one of twice the limit plus one byte never does |
| Packetizer.OverlongPacket | src/app/encoder.cc:209-219 | a concrete frame size whose second packet exceeds the default MTU |
| Packetizer.FrameFitsMtu | src/app/protocol.cc:16-26 | all packets of a frame stay within the MTU exactly under the size condition |
| Packetizer.Packets | src/app/encoder.cc:208-226 | packetizing throws exactly when the count does not fit 16 bits; else the fragments are numbered in order, carry the count and their payloads, and are marked as never sent |
| Packetizer.PacketsCarryFrame | src/app/encoder.cc:216-231 | the payloads of a frame's datagrams, in order, are the frame |
| Protocol.PacketFitsMtu | src/app/protocol.cc:18-26 | the payload limit set for an MTU is exact |
| Protocol.DatagramRoundTrip | src/app/protocol.cc:28-58 | parsing a serialized datagram restores every wire field and none of the sender's own |
| Protocol.BinaryRoundTrip | src/app/protocol.cc:28-58 | re-serializing any parsed binary of at least the header's size gives it back |
| Protocol.MsgRoundTrip | src/app/protocol.cc:70-146 | messages survive the wire, and have their announced size, whatever follows them |
| Protocol.MsgBinaryRoundTrip | src/app/protocol.cc:70-146 | any message parsed from arbitrary bytes re-serializes to exactly the prefix it was read from |
| Protocol.DatagramOffsets | src/app/protocol.cc:45-58 | which bytes each field of a datagram occupies: 17 bytes of header, then the payload |
| Protocol.ParsedDatagramOffsets | src/app/protocol.cc:28-43 | a binary is refused exactly when it has fewer than 17 bytes; else each field is read from its place |
| Protocol.AckOffsets | src/app/protocol.cc:104-120 | an ACK is type byte 1 followed by frame id, fragment id and send time, 15 bytes in all |
| Protocol.ConfigOffsets | src/app/protocol.cc:127-146 | a CONFIG is type byte 2 followed by its four fields, 11 bytes in all |
| Protocol.ParsedMsgExactly | src/app/protocol.cc:70-97 | from the bytes: empty input and unknown types are ignored, an ACK under 15 and a CONFIG under 11 bytes throw, everything else yields the fields at their places |
| Protocol.ParseDatagram | src/app/protocol.cc:28-43 | reading field by field with the cursor yields the parsed datagram; only short headers are refused |
| Protocol.ParseMsg | src/app/protocol.cc:70-97 | the moving cursor yields exactly what ParsedMsgExactly says of the bytes |
| Wire.GetPut | src/util/serialization.hh:22-42 | a number of any width is read back as written |
| Wire.PutGet | src/util/serialization.hh:22-42 | bytes of any number are written back as read |
| Wire.PutNumberBytes | src/util/serialization.hh:16-28 | big-endian: byte i of a number of any width is its digit of weight 256 to the number of bytes behind it |
| Wire.GetNumberBytes | src/util/serialization.hh:30-42 | the number read has exactly the bytes it was read from as its digits, the first of the highest weight |
| Wire.WireParser.Read | src/util/serialization.hh:88-102 | reads and moves the cursor, or throws past the end leaving it alone |
| Wire.WireParser.ReadString | src/util/serialization.cc:25-37 | likewise for strings |
| Wire.WireParser.Skip | src/util/serialization.cc:39-46 | likewise for skipping |
| Rtt.EstimateClosedForm | src/app/encoder.cc:298-311 | after any samples the minimum is the least one; the average equals its closed weighted sum, with weights that sum to one, and lies between least and greatest |
| Encoding.HoldsMeansMember | src/app/encoder.cc:264-271 | the ordered lookup finds a number exactly when it is tracked |
| Encoding.Stored | src/app/encoder.cc:233-255 | insertion throws exactly when the number is already tracked; else that entry joins, stamped with its send time, all others stay as they were, and the order is kept |
| Encoding.AckedSimpleForm | src/app/encoder.cc:257-296 | acknowledging puts the retransmissions of everything below before the old queue, removes only the acknowledged entry, marks what was retransmitted and leaves entries above untouched; an unknown number only feeds the RTT estimate |
| Encoding.ResentExactly | src/app/encoder.cc:273-292 | the retransmissions are exactly the eligible datagrams, marked, in ascending order |
| Encoding.AckedExactly | src/app/encoder.cc:264-295 | in terms of counters and times only: an entry below the acknowledged one gains exactly one queued copy if and only if it was retransmitted fewer than three times, and never or more than the new RTT estimate ago; copy and entry carry the new count and time; nothing else is queued, moved or changed |
| Encoding.AckedNums | src/app/encoder.cc:294-295 | exactly the acknowledged number leaves, and the order is kept |
| Encoding.RepeatedAck | src/app/encoder.cc:264-271 | the same acknowledgement again, at any later time, changes only the RTT estimate |
| Encoding.Encoder.EncodeFrame | src/app/encoder.cc:129-176 | when the first tracked datagram was sent more than a second ago, clears both queues and forces a key frame; what that means in any reachable state is stated by Behaviour.TickInRun and TimerInRun |
| Encoding.Encoder.PacketizeEncodedFrame | src/app/encoder.cc:178-231 | the pointer loop appends exactly the frame's fragments, or throws changing nothing |
| Encoding.Encoder.CompressFrame | src/app/encoder.cc:104-127 | encode, packetize, next id |
| Encoding.Encoder.AddUnacked | src/app/encoder.cc:233-255 | tracks a first transmission with its send time, keeping every other entry, or throws, exactly when it is tracked already, changing nothing |
| Encoding.Encoder.AddRttSample | src/app/encoder.cc:298-311 | updates minimum and average |
| Encoding.Encoder.RetransmitBefore | src/app/encoder.cc:273-292 | the backward walk with in-place updates and front pushes equals marking and filtering in ascending order |
| Encoding.Encoder.HandleAck | src/app/encoder.cc:257-296 | the in-place form of acknowledging |
| Polling.Poller.RegisterEvent | src/util/poller.cc:9-25 | registers and activates; a second registration throws |
| Polling.Poller.Activate | src/util/poller.cc:34-37 | adds exactly one flag of one registered descriptor; every other flag of every descriptor is as before |
| Polling.Poller.Deactivate | src/util/poller.cc:44-47 | removes exactly one flag of one registered descriptor; every other flag of every descriptor is as before |
| Polling.Poller.Deregister | src/util/poller.cc:54-62 | schedules a descriptor to be forgotten at the next round |
| Polling.Poller.DoDeregister | src/util/poller.cc:64-72 | forgets exactly the scheduled descriptors |
| Polling.Poller.FdsToPoll | src/util/poller.cc:74-85 | a round waits for exactly the active events of descriptors not scheduled to go |
| Sending.NeverSleepsOnQueue | src/app/video_sender.cc:141-240 | between any callbacks in any order, queued datagrams imply waiting for a writable socket; and after the first timer or writable callback, only then |
| Sending.VideoSender.constructor | src/app/video_sender.cc:141-257 | the events waited for at the start |
| Sending.VideoSender.OnFrameTimer | src/app/video_sender.cc:142-166 | read an image for every expiration, or throw when the video ends; compress the last, and watch the socket when something is queued |
| Sending.VideoSender.OnSocketWritable | src/app/video_sender.cc:169-205 | send until empty or blocked; stop waiting for the socket to be writable when empty, but never for it to be readable; yields the binaries that the socket took |
| Sending.VideoSender.TrySend | src/app/video_sender.cc:174-198 | one try: the binary offered carries the time of sending; taken, it leaves the queue and is tracked if sent for the first time; refused, it stays with its timestamp cleared |
| Sending.OnWireExactly | src/app/video_sender.cc:174-181 | what goes on the wire is the front of the queue in order, each datagram stamped with the time of its own sending |
| Sending.SentAllExactly | src/app/video_sender.cc:172-198 | of the queue, exactly what the socket takes before it first refuses leaves it; exactly the first transmissions among that are tracked, with their sending times |
| Sending.VideoSender.OnSocketReadable | src/app/video_sender.cc:208-240 | handle acknowledgements until drained or until something else arrives |
| Sending.ReadableStopsAtOther | src/app/video_sender.cc:211-222 | the first message that is no acknowledgement ends the reading: the result is that of the acknowledgements before it alone, whatever it is and whatever follows, except that a message cut short throws |
| Sending.ReadableExactly | src/app/video_sender.cc:211-238 | acknowledgements are handled one by one in order, and the socket is watched when anything is queued then |
| EventLoop.WritableIsSends | src/app/video_sender.cc:169-205 | the writable callback is a run of single sends of the composed system and never throws; what it adds to the network is what went on the wire |
| EventLoop.ReadableIsAcks | src/app/video_sender.cc:208-240 | the readable callback is a run of single acknowledgement steps and never throws, also when other messages arrive |
| EventLoop.TimerIsTick | src/app/video_sender.cc:142-166 | the timer callback is one tick; it throws exactly when the video has ended or the frame has too many fragments |
| EventLoop.ProgramsFollowRun | src/app/video_sender.cc:141-262 | any sequence of callbacks, interleaved with datagrams arriving in the receive loop, takes both programs to a state that one run of the composed system reaches, with the same datagrams and acknowledgements on the wire; the sender never sleeps on queued datagrams; only the end of the video or a frame of too many fragments raises an exception |
| TransportSteps.TickKeepsInv | src/app/encoder.cc:104-231 | producing a frame, with or without giving up, keeps the system invariant |
| TransportSteps.SendKeepsInv | src/app/video_sender.cc:174-198 | a sent, popped or blocked datagram keeps the system invariant, and insertion never throws |
| TransportSteps.AckKeepsInv | src/app/encoder.cc:257-296 | handling any acknowledgement keeps the system invariant |
| TransportSteps.DeliveryKeepsInv | src/app/video_receiver.cc:107-129 | delivering any datagram ever sent keeps the system invariant and never throws |
| Guarantees.ReachedInv | src/app/video_sender.cc:141-240 | every state reachable by any interleaving of sender, network and receiver steps satisfies the system invariant |
| Guarantees.OnlyOversizeThrows | src/app/video_sender.cc:141-240 | a run of sender, network and receive loop raises an exception exactly when a frame of too many fragments is produced |
| Guarantees.NothingLostSilently | src/app/encoder.cc:136-161 | every created fragment was received, or is queued, or is tracked, or a later key frame has been produced |
| Guarantees.KeyFrameRecovery | src/app/decoder.cc:164-182 | once a key frame is received in full the receiver has moved past it |
| Guarantees.Conservation | src/app/encoder.cc:233-296 | a fragment exists exactly when it is fresh, tracked, acknowledged or abandoned; it is only one of these; acknowledged ones were received |
| Guarantees.EndToEnd | src/app/decoder.cc:187-240 | every dispatched frame has exactly the bytes encoded for its id, ids strictly increase, and every gap is followed by a key frame |
| Guarantees.ReceiverFrontier | src/app/decoder.cc:154-185 | the receiver's frontier is the first incomplete id beyond the latest complete key frame received, and its buffer holds exactly the received fragments from there on |
| Guarantees.FirstMeansOldest | src/app/encoder.cc:138-160 | testing the first tracked entry is testing all of them, and whatever survives the test is at most a second old |
| Guarantees.FreshOrder | src/app/video_sender.cc:174-198 | first transmissions leave in strictly increasing order, and queued fresh datagrams come after all sent and all tracked ones |
| Guarantees.BoundedRetransmission | src/app/encoder.cc:273-292 | every number is retransmitted at most three times, as often as its counter says, and each time more than the current RTT estimate after every earlier time |
| Guarantees.NoRetransmissionAfterLeaving | src/app/encoder.cc:257-296 | once a number was acknowledged or given up, no continuation of the run tracks it, queues it afresh or retransmits it again |
| Guarantees.RetransmitsTracked | src/app/encoder.cc:273-292 | what an acknowledgement retransmits was tracked and lies below it |
| Guarantees.EnqueuedExactly | src/app/encoder.cc:223-290 | what each kind of step puts into the queue and at which end, and what stays of the old queue: all of it, except that a tick that gives up keeps nothing |
| Guarantees.EnqueuedOncePlusRetransmissions | src/app/encoder.cc:223-290 | over every run each created number is put into the queue exactly once plus once for each retransmission its tracked entry counts, at most four times in all |
| Guarantees.SampleIsAgeOfCopy | src/app/video_receiver.cc:113-123 | every acknowledgement echoes a copy that was sent, and its sample is the never negative age of that very copy, also for retransmissions |
| Guarantees.RttOverRuns | src/app/encoder.cc:257-262 | the estimate is the closed form of the run's samples: the least one, and an average between the least and the greatest |
| Behaviour.AckInRun | src/app/encoder.cc:257-296 | in every reachable state: the age of the copy enters the estimate with weight 0.2, everything due below the acknowledged entry is retransmitted once, ahead of the old queue, the entry leaves and nothing above it changes; an unknown number only feeds the estimate |
| Behaviour.FirstSkipRetransmits | src/app/encoder.cc:282-291 | in every reachable state an entry that an acknowledgement skips for the first time is retransmitted |
| Behaviour.TickInRun | src/app/encoder.cc:136-226 | in every reachable state: when some tracked datagram was first sent more than 1 000 000 microseconds ago everything queued and tracked is dropped, otherwise nothing; the new frame goes to the back |
| Behaviour.TimerInRun | src/app/video_sender.cc:142-166 | in every reachable state the codec is told to force a key frame exactly when some tracked datagram is that late; the callback throws exactly when the video has ended or the frame has too many fragments, and then waits for the socket |
| Behaviour.WritableInRun | src/app/video_sender.cc:169-205 | in every reachable state a round of sending takes, tracks and leaves exactly what SentAllExactly says, and waits for the socket only if something is left |
| Behaviour.NothingAbandonedIsQueued | src/app/encoder.cc:157-160 | over every run nothing that was given up is queued, neither fresh nor as a retransmission |
| Recovery.NeverStuck | src/app/decoder.cc:164-182 | every run, whatever it lost, can go on so that a next key frame is dispatched and both ends expect the same frame |
| Recovery.DispatchedIsDecoded | src/app/decoder.cc:261-286 | over every run a dispatched frame is decoded to the bytes encoded for its id, or refused exactly when these are 1 000 000 or more |
| Recovery.WorkerOverRuns | src/app/decoder.cc:367-388 | over every run the worker decodes the dispatched frames to what was encoded, in order, and throws exactly when one of them is 1 000 000 bytes or more |
| Recovery.MillionByteFrame | src/app/decoder.cc:267-281 | a frame of exactly 1 000 000 bytes is cut in 687, can be sent, received and dispatched, and is then refused by the worker |
| Worker.HandOffOverRuns | src/app/decoder.cc:218-226 | over every interleaving with spurious wake-ups, decoded, taken and queued frames are the dispatched ones, once each and in order; no two holders of the lock; the worker sleeps on a non-empty queue only until main notifies |
| Worker.WorkerProgress | src/app/decoder.cc:352-388 | while a dispatched frame is undecoded some step is enabled, and every working step of the worker brings it closer |
| Worker.DispatchIsFree | src/app/decoder.cc:218-222 | over every interleaving main can take the lock unless it is still handing off or the worker is testing or emptying the queue |
| Worker.MainRound | src/app/decoder.cc:218-226 | a hand-off appends exactly one frame and wakes a sleeping worker |
| Worker.WorkerRound | src/app/decoder.cc:352-388 | with an empty queue the worker goes to sleep; otherwise it decodes all that was queued when it took the lock, in order |

## Left out

- libvpx and SDL: encoding, decoding and display are foreign code; only the codec contract above is kept.
- Sockets, addresses, files, timers, memory maps, capture devices: a send succeeds or would block, a receive yields bytes.
- The event loop's wait itself and the calling of callbacks: any callback may come next.
- Command line, logging, periodic statistics and output files.
- The receiver level that neither decodes nor displays: frames are always dispatched to the worker.
- Frame-id wrap-around: the sender's counter wraps as in the program, but runs stop before it does; the receiver's ids are unbounded.
- Malformed or hostile peers beyond parsing: a datagram that contradicts its frame throws here as there, and nothing is proved after that.
- YUV4MPEG reading, string splitting, raw images and `get_bits`: apart from the protocol; of the video input only whether an image is left matters.
- The mutex and condition variable of the hand-off are steps of a state machine, not code; decoding and popping one frame is a single step.
- A frame moved to the shared queue is a value there; that the moved-from object is empty until it is erased is not modelled.

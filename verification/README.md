# EASN server: CRC, framing, sessions

A Dafny model of the EASN TCP server, from the checksum engine up to the pool of
session coroutines, with proofs of what its layers promise one another. The
files, bottom up:

| file | subject |
|---|---|
| `Polynomial.dfy` | polynomials over GF(2): product, degree, uniqueness of the remainder |
| `Crc16.dfy` | the 16-bit register as coefficients, and `crc16.cpp`'s loops on machine words proved against it |
| `CrcDivision.dfy` | the register is division by x^16 + x^15 + x^2 + 1 |
| `CrcCheck.dfy` | `fill_crc` and `check_crc` on buffers |
| `CrcAlgebra.dfy`, `CrcOrder.dfy` | linearity, parity, powers of x; x has order 32767 |
| `CrcDetection.dfy`, `CrcBursts.dfy` | which errors `check_crc` detects, with the exact bounds |
| `EasnPackage.dfy` | the packet layout, acknowledgements, the header scan |
| `PacketParser.dfy` | `handle_packet` as the tree of its recursive calls: soundness and completeness |
| `ParserDelivery.dfy` | how often, in what order and with what replies a run delivers |
| `Resynchronisation.dfy`, `ParserRepeats.dfy` | the same read off the input: exactly which bytes make it sound, complete, exactly-once, in order |
| `NoisyStream.dfy` | frames in noise, damaged frames |
| `ClientManager.dfy` | the session index against its history of calls |
| `ServerSpec.dfy` | accept loop and session loop as a transition system |
| `ServerTheorems.dfy`, `SessionTheorems.dfy`, `ClosedSessions.dfy` | what holds in every run of it |
| `SessionSteps.dfy` | what one step of a run does, read off its outputs: when a session ends, under which sid it dispatches |
| `ServerChannel.dfy` | the channel's own code, over mutable tasks, stack and sessions, against that system |

**How the layers meet.** The register is sixteen coefficients and a byte string is
its bits in shift order. `Crc16.ComputeCrc16` runs the two loops and the reversal
on a `bv16` and ends in the specified register; `CrcDivision.CrcIsRemainder`
says what that register is without mentioning any loop. Detection is then a
question about polynomials: an error passes exactly when the error pattern is a
valid packet, and a data-only error exactly when it is a multiple of the generator.

`handle_packet` copies the input from a header on into an uninitialised
`packet_t`. The bytes after the input are arbitrary, so one input can have many
runs. A run is a value of `PacketParser.Calls`: one node per call, with that
call's buffer (`window`) and the calls it makes. `IsRun` says that a tree is a
possible execution; every theorem about the parser is about all such trees, and
`ServerChannel.Channel.HandlePacket` produces one, so there always is one.

Coroutines give up control only in a yield, a poll or a resume, so each stretch
between two such points is one step of `ServerSpec`: a connection, or the return
of one poll. Its outputs (accept, read, acknowledge, dispatch, close) form a
trace. A run is any list of steps; the clock does not go back and `accept`
returns a descriptor that is not open. The pool has n tasks rather than 10. In
`ServerChannel` each stretch is a method on mutable state whose contract is that
step, and the object keeps the list of its steps, so that its outputs are at any
time those of a run (`ServerChannel.Channel.StandsInRun`).

**Where the code does less than it seems to promise.** Each is proved, with the
exact condition where there is one.

- One to three flipped bits are always caught in packets of up to 4095 bytes; in
  every longer one, up to the allowed 16384, some pair of flips passes
  (`CrcDetection.FewFlipsBound`).
- The checksum is reflected and stored high byte first, so a packet is not a plain
  multiple of the generator and a burst over the boundary between data and checksum
  can pass. A 16-bit window is safe exactly when it holds at most the first two
  checksum bits, or nothing but checksum (`CrcBursts.BurstsDetectedIff`).
- A declared length that reaches past the input is only logged, and the check
  runs over whatever the stack held. Which headers can pass that way is read off
  the bytes (`Resynchronisation.MayAcceptIff`), and the parser delivers exactly the
  valid packets on the inputs where the scan comes to none of them
  (`Resynchronisation.ResynchronisesIff`).
- After a failed check the parser goes on both two bytes later and after the
  declared length. A packet is delivered again exactly if a stray header before it
  declares a length that ends by it (`ParserRepeats.DeliveredOnceIff`); one damaged
  frame in front is enough (`ParserRepeats.RepeatedFrame`).
- For the same reason k damaged frames in a row ask for 2^k - 1 replies, in every
  run: one full read can ask for 2^1489 - 1 (`ParserRepeats.FullReadReplies`).
- Two connections made within one millisecond share a sid, and the second is not
  found by it (`ClientManager.FoundIffNotShadowed`, `ClientManager.SameSidShadows`).

## Model

| member | source | states |
|---|---|---|
| `Crc16.ComputeReverse` | src/core/crc16.cpp:3-15 | the loop of `reverse` returns the word whose bit i is bit 15 - i of the argument, for every word |
| `Crc16.ComputeCrc16` | src/core/crc16.cpp:22-48 | both loops and the reversal, on a machine word, end in the specified register for every buffer and length |
| `CrcDivision.MirrorInvolutive` | src/core/crc16.cpp:3-15 | reversing twice gives the register back |
| `CrcDivision.GeneratorWord` | src/core/crc16.cpp:17-20 | the constant 0x8005 with the dropped leading term is x^16 + x^15 + x^2 + 1, of degree 16 |
| `CrcDivision.GeneratorFactors` | src/core/crc16.cpp:17-20 | that polynomial is (x + 1)(x^15 + x + 1), coefficient by coefficient |
| `CrcDivision.DivisionStep` | src/core/crc16.cpp:30-36 | one shift of the register keeps dividend = quotient * G + register while the dividend takes one more bit |
| `CrcDivision.RunIsRemainder` | src/core/crc16.cpp:26-37 | after the data loop the register is the remainder of the message by G, and the bits shifted out are the quotient |
| `CrcDivision.CrcIsRemainder` | src/core/crc16.cpp:22-48 | the returned value, mirrored, equals r if and only if r is a remainder of M * x^16 by G |
| `CrcCheck.FillCrc` | src/core/modules/easn/easn_package.cpp:44-48 | writes the two checksum bytes, high half first, changes no other byte, and leaves a packet that passes the check |
| `CrcCheck.CheckCrc` | src/core/modules/easn/easn_package.cpp:50-60 | returns true exactly when the last two bytes hold the bits of the CRC of the others |
| `CrcCheck.CrcOkIff` | src/core/modules/easn/easn_package.cpp:44-60 | a packet passes if and only if its tail is what `fill_crc` would write after its data |
| `CrcAlgebra.CrcXor` | src/core/crc16.cpp:22-48 | crc(a xor b) = crc(a) xor crc(b) for all equally long a and b |
| `CrcAlgebra.CrcParity` | src/core/crc16.cpp:22-48 | the CRC has the bit parity of the data, for every byte string |
| `CrcAlgebra.StepsInjective` | src/core/crc16.cpp:40-46 | any number of zero-input steps sends different registers to different registers |
| `CrcOrder.FullPeriod` | src/core/crc16.cpp:17-46 | x^32767 = 1 modulo the generator |
| `CrcOrder.SmallestPeriod` | src/core/crc16.cpp:17-46 | no smaller positive power of x is 1 |
| `CrcDetection.UndetectedIff` | src/core/modules/easn/easn_package.cpp:50-60 | an error on a valid packet passes the check if and only if the error pattern is itself a valid packet |
| `CrcDetection.OddFlipsDetected` | src/core/modules/easn/easn_package.cpp:50-60 | an odd number of flipped bits anywhere, in data or checksum, makes the check fail, for every size |
| `CrcDetection.DataErrorUndetectedIff` | src/core/modules/easn/easn_package.cpp:50-60 | an error in the data bytes passes if and only if its polynomial is a multiple of the generator |
| `CrcBursts.BurstsDetectedIff` | src/core/modules/easn/easn_package.cpp:44-60 | in a valid packet of any size, every nonzero error within the 16 bits from s on makes the check fail if and only if s + 14 <= 8(size - 2) or s >= 8(size - 2) |
| `CrcBursts.GeneratorErrorUndetected` | src/core/modules/easn/easn_package.cpp:50-60 | 16 bits and 3 flips are sharp: in every packet of 5 bytes or more a 17-bit data burst with four flips passes |
| `CrcDetection.TwoFlipsInvalid` | src/core/modules/easn/easn_package.cpp:50-60 | no valid packet of at most 4095 bytes has exactly two bits set |
| `CrcDetection.FewFlipsDetected` | src/core/modules/easn/easn_package.cpp:50-60 | one, two or three flips anywhere in a valid packet of at most 4095 bytes make the check fail |
| `CrcDetection.WrapErrorUndetected` | src/core/modules/easn/easn_package.cpp:50-60 | for every size from 4096 bytes on there is a pattern of two flips that is a valid packet |
| `CrcDetection.FewFlipsBound` | src/core/modules/easn/easn_package.cpp:50-60 | a valid packet has all changes of one to three bits detected if and only if it is at most 4095 bytes long |
| `EasnPackage.DecodeEncode` | tests/test_protocol.cpp:49-65 | a buffer starting with a frame built as the client builds it is read back as the same type, index and payload, and passes the check, whatever follows |
| `EasnPackage.BuildPacket` | tests/test_protocol.cpp:49-65 | setting the fields, copying the payload and `fill_crc` produce exactly that frame |
| `EasnPackage.HtonlBigEndian` | tests/test_protocol.cpp:57-59 | the four bytes of an index weigh 2^24, 2^16, 2^8 and 1 in order |
| `EasnPackage.FrameEnds` | src/core/modules/easn/easn_package.cpp:62-67 | a packet of a 16384-byte buffer ends at its big-endian length, or with the buffer when the length is larger |
| `EasnPackage.AckIsFrame` | src/core/modules/easn/easn_package.h:38-48 | the bytes of an acknowledgement are the frame of the message with the packet's type and index and the code as payload |
| `EasnPackage.AckBytesAre` | src/core/modules/easn/easn_package.cpp:37-42 | byte by byte: aa 55, the packet's type and index, 00 0d, the code's two bytes, and a checksum that passes |
| `EasnPackage.NewAck` | src/core/modules/easn/easn_package.h:38-48 | a fresh `ack_t` carries the header and the length 13 |
| `EasnPackage.FillAckPacket` | src/core/modules/easn/easn_package.cpp:37-42 | from that template, writes exactly the acknowledgement of the source packet |
| `EasnPackage.FindHeaderPosition` | src/core/modules/easn/easn_package.cpp:94-100 | returns the first header position at or after pos, and -1 only when there is none |
| `PacketParser.DeliveredIsSound` | src/core/modules/easn/easn_server_channel.cpp:215-261 | in every run, each delivered position holds a header with a packet that passes its check, or one that reaches past the input |
| `PacketParser.HeaderNotNext` | src/core/modules/easn/easn_server_channel.cpp:253 | resuming two bytes after a header skips no header |
| `PacketParser.AtLeastOnce` | src/core/modules/easn/easn_server_channel.cpp:215-261 | a valid packet is delivered, through any number of corrupted ones, unless a packet delivered before it covers its start |
| `Resynchronisation.MayAcceptIff` | src/core/modules/easn/easn_server_channel.cpp:229-240 | for a header whose packet reaches past the input, a condition on the bytes holds if and only if the check passes for some content of the stack |
| `Resynchronisation.OverrunDeliveredIff` | src/core/modules/easn/easn_server_channel.cpp:232-246 | a first header that reaches past the input is delivered in some run if and only if that condition holds |
| `Resynchronisation.ResynchronisesIff` | src/core/modules/easn/easn_server_channel.cpp:215-261 | with lengths of at least 2 and no overlapping valid packets, every run delivers exactly the valid packets if and only if no header the scan can come to may pass past the end of the input |
| `PacketParser.InBoundsRun` | src/core/modules/easn/easn_server_channel.cpp:229-240 | if every header of the input declares at least 2 and ends in the input, no run is undefined or delivers past the input |
| `ParserRepeats.DeliveredOnceIff` | src/core/modules/easn/easn_server_channel.cpp:238-260 | on those inputs every run delivers a valid packet at least once, and exactly once if and only if no stray header before it declares a length that ends by it |
| `ParserRepeats.InOrderIff` | src/core/modules/easn/easn_server_channel.cpp:247-260 | there the deliveries ascend strictly if and only if no stray header declares a length that ends by a valid packet |
| `ParserRepeats.FirstDeliveriesInOrder` | src/core/modules/easn/easn_server_channel.cpp:247-260 | there, whatever is delivered again, first deliveries are in input order: what is found two bytes after a failed header comes before what is found after its length |
| `ParserRepeats.NoFailureIff` | src/core/modules/easn/easn_server_channel.cpp:247-254 | there a run has no failed candidate if and only if the input has no stray header |
| `ParserRepeats.DeliveredTwice` | src/core/modules/easn/easn_server_channel.cpp:247-260 | a damaged packet in front of an intact frame makes every run deliver the frame twice |
| `ParserRepeats.RepeatedFrame` | src/core/modules/easn/easn_server_channel.cpp:247-260 | for every message such an input exists, eleven bytes longer than its frame, so within one read for frames of at most 16373 bytes |
| `ParserDelivery.OneReplyEach` | src/core/modules/easn/easn_server_channel.cpp:239-254 | one reply per candidate processed and one callback per delivery |
| `ParserDelivery.SuccessBeforeCallback` | src/core/modules/easn/easn_server_channel.cpp:239-246 | every callback comes right after a reply with code 0 and the type and index of the same packet, which has passed its check |
| `ParserDelivery.ReplyCodes` | src/core/modules/easn/easn_server_channel.cpp:239-254 | each reply of a run carries code 0 if a callback follows it directly, and code 1 if not |
| `ParserDelivery.FailureReplied` | src/core/modules/easn/easn_server_channel.cpp:247-249 | every failed candidate is answered with its own type and index, code 1 and a checksum that passes |
| `ParserDelivery.ReplyBound` | src/core/modules/easn/easn_server_channel.cpp:215-261 | at most 2^((len - pos) / 2) - 1 replies, in every run |
| `ParserRepeats.NoStrayReplyBound` | src/core/modules/easn/easn_server_channel.cpp:215-261 | at most (len - pos) / 2 replies when the input has no stray header |
| `ParserRepeats.RepliesDouble` | src/core/modules/easn/easn_server_channel.cpp:247-260 | on k damaged packets in a row every run makes exactly 2^k - 1 replies |
| `ParserRepeats.FullReadReplies` | src/core/modules/easn/easn_server_channel.cpp:247-260 | an input no longer than one read makes every run reply 2^1489 - 1 times |
| `NoisyStream.NoStraddle` | src/core/modules/easn/easn_package.cpp:94-100 | no header begins in noise without headers that is followed by a frame, not even over the boundary |
| `NoisyStream.RoundTrip` | src/core/modules/easn/easn_server_channel.cpp:215-261 | any list of frames in such noise is delivered once each, in order, each after its SUCCESS reply, with nothing else written, in every run |
| `NoisyStream.AckParses` | src/core/modules/easn/easn_package.cpp:37-42 | the parser run on an acknowledgement delivers it as one packet with the same type and index and the code as its payload |
| `NoisyStream.DamagedNotDelivered` | src/core/modules/easn/easn_server_channel.cpp:238-254 | a frame of at most 4095 bytes with one to three bits flipped outside header and length is never delivered, whatever surrounds it |
| `ClientManager.FirstInsertWins` | src/core/modules/easn/easn_client_manager.cpp:37-54 | after any calls the entry of a sid is the connection of the earliest creation since its last removal, and no entry means there is none |
| `ClientManager.EarliestUnique` | src/core/modules/easn/easn_client_manager.cpp:37-54 | that creation is unique |
| `ClientManager.FoundIffNotShadowed` | src/core/modules/easn/easn_client_manager.cpp:37-45 | a connection not removed is found by its own sid if and only if the sid was absent when it was created |
| `ClientManager.SameSidShadows` | src/core/modules/easn/easn_client_manager.cpp:37-45 | after two creations with one sid the index holds the first connection only |
| `ClientManager.IncreasingSidsFound` | src/core/modules/easn/easn_client_manager.cpp:37-63 | with strictly increasing timestamps every connection not removed is found by its own sid |
| `ClientManager.Manager.constructor` | src/core/modules/easn/easn_client_manager.cpp:24-26 | an empty index with an empty history |
| `ClientManager.Manager.NewConnection` | src/core/modules/easn/easn_client_manager.cpp:37-45 | a fresh, unauthorised connection; the index gains it only when its sid is absent |
| `ClientManager.Manager.RemoveConnection` | src/core/modules/easn/easn_client_manager.cpp:47-54 | the sid leaves the index, other entries stay |
| `ClientManager.Manager.GetConnection` | src/core/modules/easn/easn_client_manager.cpp:56-63 | returns the earliest connection with the sid since its last removal, with that sid in it, and null exactly when there is none |
| `ServerTheorems.PoolConserved` | src/core/modules/easn/easn_server_channel.cpp:85-116 | in every run: a task is on the stack exactly when parked, and once; idle and serving tasks add up to n |
| `ServerTheorems.RefusedIffFull` | src/core/modules/easn/easn_server_channel.cpp:98-116 | when n tasks serve, or 10 s have passed since the accept, a connection is closed at once and the pool stands as before; otherwise the task on top of the stack serves it, unauthorised, and polls for the rest of the 10 s |
| `ServerTheorems.HandleIsOrderly` | src/core/modules/easn/easn_server_channel.cpp:170-183 | the outputs of one parser run in a session use only its own open descriptor, dispatch only what may pass, and change only that session's authorisation |
| `ServerTheorems.FdsConserved` | src/core/modules/easn/easn_server_channel.cpp:98-211 | in every run the outputs are in order, the open descriptors are the served ones, each by one task, and the auth flag says whether INIT was dispatched |
| `ServerTheorems.UsedOnlyWhileOpen` | src/core/modules/easn/easn_server_channel.cpp:139-210 | every read, reply, dispatch and close of a descriptor lies between its accept and its close: none after it, no second close |
| `ServerTheorems.OwnedByOneTask` | src/core/modules/easn/easn_server_channel.cpp:110-116 | a descriptor is open if and only if some task serves it, and no two tasks serve the same one |
| `ServerTheorems.DispatchedOnlyAfterInit` | src/core/modules/easn/easn_server_channel.cpp:170-183 | on any bytes, a dispatched packet has passed its check, and one that is not INIT follows a checked INIT dispatched in the same session |
| `ServerTheorems.AuthNeverLost` | src/core/modules/easn/easn_server_channel.cpp:136-184 | no step, its own or another's, takes a session's authorisation or descriptor away while it lasts |
| `SessionSteps.HandleOutputs` | src/core/modules/easn/easn_server_channel.cpp:170-183 | of any parser run, an unauthorised session dispatches the packets from the first of type 1 on and is authorised exactly by it, an authorised one dispatches all; every reply and dispatch is on its descriptor and under its sid |
| `SessionSteps.SessionEndsIff` | src/core/modules/easn/easn_server_channel.cpp:159-210 | in every run the return of a poll leads to one read and to the replies and dispatches of its packets; the descriptor is closed last and the task pushed exactly on end of file, on an error, on no data before authorisation, or unauthorised 10 s after the accept; otherwise the task polls again for the time left |
| `SessionSteps.DispatchedUnderSid` | src/core/modules/easn/easn_server_channel.cpp:136-177 | in every run a message is dispatched under the sid of the connection whose accept of the descriptor is the last before it |
| `SessionSteps.ServedSinceAccept` | src/core/modules/easn/easn_server_channel.cpp:134-136 | a task's session has the sid and the time of accept of that connection |
| `SessionSteps.DispatchedOnceAcked` | src/core/modules/easn/easn_server_channel.cpp:239-246 | in every run a dispatch comes right after the reply with code 0 to its packet, on the same descriptor |
| `SessionTheorems.PollsEndAtDeadline` | src/core/modules/easn/easn_server_channel.cpp:138-159 | in every run each poll of an unauthenticated session begins before accept + 10 s and has a timeout in (0, 10000] ms that ends exactly then; others wait for ever |
| `SessionTheorems.DeadlineHolds` | src/core/modules/easn/easn_server_channel.cpp:138-210 | in every run whose polls return by their timeouts, no session is unauthenticated later than 10 s after its accept |
| `SessionTheorems.SessionDispatchesFromInit` | src/core/modules/easn/easn_server_channel.cpp:162-184 | in every run, for frames in noise grouped in any way into reads, a session still served has dispatched exactly those from the first INIT on, in order, and is authorised exactly when an INIT came |
| `ClosedSessions.ClosedAfterInit` | src/core/modules/easn/easn_server_channel.cpp:147-210 | the same at every close, whichever exit the session takes, read off the outputs alone |
| `ServerChannel.Channel.OnPacket` | src/core/modules/easn/easn_server_channel.cpp:170-183 | a packet of type 1, or any in an authorised session, is dispatched under the session's sid and leaves it authorised; any other changes nothing |
| `ServerChannel.Channel.WriteAck` | src/core/modules/easn/easn_server_channel.cpp:241-250 | the reply written is the acknowledgement of the packet in the buffer |
| `ServerChannel.Channel.HandlePacket` | src/core/modules/easn/easn_server_channel.cpp:215-261 | terminates, makes a possible run of the parser over the input, and does to outputs and session exactly what that run says |
| `ServerChannel.Channel.CopyPacket` | src/core/modules/easn/easn_server_channel.cpp:216-230 | a new packet buffer holds the input from the header on; the rest of it is arbitrary |
| `ServerChannel.Channel.HandleCandidate` | src/core/modules/easn/easn_server_channel.cpp:229-261 | the call from the copy on makes one of the runs that begin at that header |
| `ServerChannel.Channel.FinishAccepted` | src/core/modules/easn/easn_server_channel.cpp:239-260 | the accepting branch with the call after it; its first output is the reply with code 0 |
| `ServerChannel.Channel.FinishRejected` | src/core/modules/easn/easn_server_channel.cpp:247-260 | the rejecting branch with both recursions; its first output is the reply with code 1 |
| `ServerChannel.Channel.constructor` | src/core/modules/easn/easn_server_channel.cpp:264-280 | n tasks with descriptor -1, pushed in order, no output: the model's start state |
| `ServerChannel.Channel.EndSession` | src/core/modules/easn/easn_server_channel.cpp:186-210 | closes the descriptor, parks the task and pushes it; nothing else changes |
| `ServerChannel.Channel.LoopHead` | src/core/modules/easn/easn_server_channel.cpp:138-159 | closes an unauthorised session 10 s after its accept, else polls, for ever when authorised and for the rest of the 10 s when not |
| `ServerChannel.Channel.ReadNothing` | src/core/modules/easn/easn_server_channel.cpp:186-204 | a read without data ends the session, unless it would block and the session is authorised |
| `ServerChannel.Channel.ServerReadWrite` | src/core/modules/easn/easn_server_channel.cpp:138-210 | the stretch from the return of a poll: the session closes and its task is pushed exactly on end of file, error, no data while unauthorised, or lateness; else it polls again. It is the model's step, and the run grows by it |
| `ServerChannel.Channel.StartSession` | src/core/modules/easn/easn_server_channel.cpp:124-159 | a resumed task opens a session on its own descriptor, which the index is told of under the timestamp, and comes to its first poll |
| `ServerChannel.Channel.Adopt` | src/core/modules/easn/easn_server_channel.cpp:128-136 | the task's session is the connection it was given, and no other task's changes |
| `ServerChannel.Channel.ServerAccept` | src/core/modules/easn/easn_server_channel.cpp:85-116 | the stretch after an accept is the model's step, and the run grows by it; when a task was idle it has a fresh session on the accepted descriptor, which the index holds if its sid was free |
| `ServerChannel.Channel.StandsInRun` | src/core/modules/easn/easn_server_channel.cpp:85-211 | at any time the channel's outputs are those of a run from n parked tasks, its pool is conserved and its descriptors are in order |

## Left out

- Resynchronisation.ResynchronisesIff: a declared length below 2, on which `check_crc` and the recursion have no defined behaviour, is excluded by precondition; in a run such a call is the node `Undefined`, which does nothing further.
- PacketParser.AtLeastOnce: excludes runs that meet such a length, for the same reason.
- ParserRepeats.DeliveredOnceIff: inputs where valid packets overlap, or where the scan comes to a header that may pass past the end, are not covered; `ParserDelivery.ExactlyOnceIff` covers them by a condition on the run.
- NoisyStream.DamagedNotDelivered: damage to the two header bytes or the length field is not covered, because it changes which bytes the check is run over.
- ServerChannel.Channel.ServerReadWrite: when the parser meets a declared length below 2, the contract describes a session that goes on after the call; what the code does from there is undefined, and only the outputs up to that call are the code's.
- ServerChannel.Channel.HandlePacket: the uninitialised part of `packet_t` is a freshly allocated array of arbitrary content, and it is new in each call.
- SessionTheorems.DeadlineHolds: a poll that returns late is outside the claim; `SessionTheorems.WokenInTime` says what happens then.
- Sockets, epoll, fcntl, signals and the coroutine library: the results of accept, poll and read are inputs of the steps, and a write or close is an entry of the trace that always succeeds.
- The accept loop's wait when `co_accept` fails, which changes no modelled state.
- The clock moves only between stretches: all readings of `time` in one stretch after the accept are one value, and the first may be earlier. Seconds are unbounded, so the 32-bit wrap of timestamps is not modelled.
- `sizeof_data` for packets below 11 bytes, where its unsigned subtraction wraps, and `type_to_string` for types outside 1 to 4, where it returns nothing: a dispatch records the packet itself.
- Frames split across two reads: the code keeps nothing from one read to the next, so nothing is claimed about them.
- Several channels: `m_tasks` is static and replaced by each `init`, so one channel is modelled.
- The first overload of `fill_ack_packet`, which takes the index without conversion and has no caller in the server.
- The `appid` field, the freeing of connections and the destructor of `client_manager`, which erases under its own iterator.
- Kafka, the dispatchers, logging, configuration, the thread pool, `wf_event.cpp` and the example programs.

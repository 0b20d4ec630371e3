# 4DIAC FORTE: verified model of five runtime kernels

This project models stateful kernels of the FORTE runtime for IEC 61499 and proves what their
code promises. `dafny verify dfyconfig.toml` checks all of it.

Where the source updates objects and buffers in place, so does the model: classes with array
buffers, intrusive chains and object trees, each method tied to a function of the state before it.
The properties of whole runs are proved about those functions.

| part | files |
|---|---|
| ASN.1 data points: codec, fragment reassembly, communication layer | `DataPoints`, `Asn1Codec`, `Asn1Attempts`, `Asn1Serializer`, `Asn1Deserializer`, `Asn1RoundTrip`, `Asn1Prefixes`, `Asn1Properties`, `Asn1Integers`, `Asn1Wire`, `Asn1Reassembly`, `Asn1Cuts`, `Asn1Sending`, `Asn1Layer` |
| Event chain executor: two ring buffers, semaphore, worker and producers | `EventRing`, `Executor`, `WorkerLoop`, `EventChainExecutor` |
| Timer: 64-bit time, timer list, schedule, POSIX tick loop | `ForteTime`, `TimerList`, `TimerHandler`, `TimerSchedule`, `TickLoop` |
| String dictionary | `CStrings`, `StringTable`, `StringDictionary` |
| Function block containers and execution states | `ExecutionState`, `CommandRuns`, `PathMap`, `PathRuns`, `CreationOrder`, `FBContainer` |
| Linked list, event connections, communication IDs | `LinkedList`, `Connections`, `LayerId` |
| Shared | `Bytes`, `Machine`, `Options`, `Sequences`, `Management` |

The identifier octets follow section 8.1.2 of ISO/IEC 8825-1, the payload the IEC 61499 Compliance
Profile for Feasibility Demonstrations, the state commands Figure 24 of IEC 61499-1.

## Where the code does not keep a promise

Each of these is proved with the exact condition under which the code is right.

- A delivery on top of buffered bytes that completes a point and ends inside a later one loses the
  bytes of the later one (`ReceivesRightIffNoTailLost`, `CutInsideTwoPointsLosesTail`; by cut
  positions `LosesTailIffFaulty`, `ReassembledIfSafelyCut`).
- The serializer writes the header of an array before it looks at the room that is left. A packet
  with structs, which are predicted to take 255 bytes whatever they hold, can so be written behind
  its buffer (`ValueOverrunsIff`, `PacketOverrunsIff`, `SendOverrunsIff`, `TextThenArray`,
  `StructOverruns`), and so is the null tag of a layer without data to send (`NullTagOverruns`).
- An array whose elements have another type, at whatever depth, is not rejected but waited for
  (`ArrayMismatchLooksIncomplete`), and the receiver is deaf from then on (`DeafForEver`,
  `DeafAfterMismatch`); it is never taken for an array of the right type
  (`AcceptedIffSameType`).
- A TIME loses what is below a microsecond (`RestoredIffRepresentable`).
- A ring of n slots holds n - 1 entries; the n-th is swallowed and the ring is dead from then on
  (`NothingSwallowedIffRoom`, `ExternalRingDies`, `EventListDies`).
- The difference of two times is one tick too small when the lower words need a borrow
  (`MinusTimeRightIffNoBorrow`).
- The tick length is rounded down to a microsecond, so the timer runs fast at rates that do not
  divide a million (`NominalRateIff`, `TicksInSeconds`), and above a million ticks per second its loop does not end
  (`InnerLoopEndsIff`).
- The dictionary's growth by half grows nothing from one entry or none, and wraps around at a third
  of the 32-bit range (`IdBufferGrowsIff`, `BufferGrowsEnoughIff`).
- A deletion makes the containers on its path, also when it fails, and can so keep a later creation
  from succeeding (`FailedDeleteBlocksIff`).
- The lookup of a path may end at a block in the middle of it; state commands do not ask and go to
  that block (`GetIsRightIff`, `CommandGoesAstrayIff`).
- A state command that meets a block that does not admit it leaves the blocks before it changed
  (`FailureChangesNothingIff`, `SweptMeans`, `NewBlockBlocksStop`, `CreatedBlocksStop`); sending it again does not help (`NoCommandTwice`).
- The parser of communication IDs takes any single character for the separator, also behind the
  last layer (`PrintedAgainIff`, `PrintedIff`, `SeparatorAccepted`, `AcceptedThoughNotDotSeparated`).

## Model

| member | source | states |
|---|---|---|
| Bytes.ReadBack | src/core/cominfra/fbdkasn1layer.cpp:403-418 | a number that fits k bytes is restored by reading back its big-endian bytes |
| Asn1Codec.DecodePoint | src/core/cominfra/fbdkasn1layer.cpp:560-574 | decoding never uses more bytes than there are, answers at least -2, and leaves a target of its type whatever bytes arrive |
| Asn1Codec.DecodeValue | src/core/cominfra/fbdkasn1layer.cpp:603-646 | a payload either fails with -1 or -2 or uses a positive number of the bytes; the target keeps its type |
| Asn1Codec.DecodeArray | src/core/cominfra/fbdkasn1layer.cpp:734-797 | an array target keeps its number of elements and their type, whatever length is on the wire |
| Asn1Codec.DecodeFields | src/core/cominfra/fbdkasn1layer.cpp:826-848 | the members are decoded in order; success uses at least one byte for each |
| Asn1Attempts.PointFits | src/core/cominfra/fbdkasn1layer.cpp:247-532 | the attempt on a data point that fits is its encoding |
| Asn1Attempts.PointBegun | src/core/cominfra/fbdkasn1layer.cpp:247-532 | whatever the room is, what an attempt writes is the beginning of the encoding |
| Asn1Attempts.ElementaryAttempt | src/core/cominfra/fbdkasn1layer.cpp:247-431 | a data point of an elementary type that does not fit leaves its identifier octet alone, and nothing without room |
| Asn1Attempts.ValueOverrunsIff | src/core/cominfra/fbdkasn1layer.cpp:311-532 | for every payload and room the attempt writes behind the room if and only if the room ends inside the header of an array that is reached |
| Asn1Attempts.PointOverrunsIff | src/core/cominfra/fbdkasn1layer.cpp:247-257 | the same for a data point with its tag |
| Asn1Attempts.PointOverrunBound | src/core/cominfra/fbdkasn1layer.cpp:454-477 | an attempt writes at most three bytes behind its room for each array inside the other |
| Asn1Serializer.SerializeDataPoint | src/core/cominfra/fbdkasn1layer.cpp:247-257 | the pointer-and-size code leaves exactly the attempt in the buffer, and the rest as it was; it answers the length of the encoding if that fits and -1 if not |
| Asn1Serializer.SerializeTag | src/core/cominfra/fbdkasn1layer.cpp:291-309 | the identifier of the type is written, and nothing else changes |
| Asn1Serializer.SerializeValue | src/core/cominfra/fbdkasn1layer.cpp:311-360 | a false BOOL is put into the tag in front of the position; of every other payload exactly the attempt is written |
| Asn1Serializer.SerializeScalar | src/core/cominfra/fbdkasn1layer.cpp:362-401 | the low bytes of the union are written most significant first, or -1 without a write |
| Asn1Serializer.SerializeTime | src/core/cominfra/fbdkasn1layer.cpp:403-418 | eight bytes of two's complement microseconds, or -1 without a write |
| Asn1Serializer.SerializeString | src/core/cominfra/fbdkasn1layer.cpp:420-431 | two length octets and the characters, or -1 without a write |
| Asn1Serializer.SerializeArray | src/core/cominfra/fbdkasn1layer.cpp:454-503 | the header whatever the room is, then the payloads of the elements as long as they fit and the attempt on the first that does not; nothing else changes |
| Asn1Serializer.SerializeMembers | src/core/cominfra/fbdkasn1layer.cpp:506-532 | members one behind the other as long as they fit, then the attempt on the first that does not; nothing else changes |
| Asn1Deserializer.DeserializeDataPoint | src/core/cominfra/fbdkasn1layer.cpp:560-574 | the code computes DecodePoint: same result code, same target, on every input |
| Asn1Deserializer.DeserializeTag | src/core/cominfra/fbdkasn1layer.cpp:576-601 | the tag test, which for a BOOL stores its value already |
| Asn1Deserializer.DeserializeValue | src/core/cominfra/fbdkasn1layer.cpp:603-646 | the code computes DecodeValue on every input |
| Asn1Deserializer.DeserializeScalar | src/core/cominfra/fbdkasn1layer.cpp:648-693 | the union is the received bytes in machine order with sign or zero extension |
| Asn1Deserializer.NothingDecoded | src/core/cominfra/fbdkasn1layer.cpp:560-848 | without bytes every value, at whatever depth, answers -1 and leaves its target alone |
| Asn1Deserializer.DeserializeArray | src/core/cominfra/fbdkasn1layer.cpp:734-797 | the code computes DecodeArray, with surplus elements decoded into a clone; the octet it reads behind the bytes when the tag of the elements is missing is not seen in answer or target |
| Asn1Deserializer.DeserializeElems | src/core/cominfra/fbdkasn1layer.cpp:768-789 | element loop with its clone buffer equals decoding into as many targets as are on the wire and dropping the surplus |
| Asn1Deserializer.DeserializeFields | src/core/cominfra/fbdkasn1layer.cpp:826-848 | the code computes DecodeFields on every input |
| Asn1RoundTrip.PointRoundTrip | src/core/cominfra/fbdkasn1layer.cpp:247-848 | every data point of unbounded nesting, followed by any bytes, is decoded into any target of its type with exactly its own bytes used; the target then holds Received |
| Asn1RoundTrip.ValueRoundTrip | src/core/cominfra/fbdkasn1layer.cpp:311-848 | the same for payloads without identifier octet |
| Asn1RoundTrip.TimeRoundTrip | src/core/datatypes/forte_time.cpp:164-193 | a TIME arrives rounded toward zero to whole microseconds, whatever its sign |
| Asn1RoundTrip.RestoredIffRepresentable | src/core/cominfra/fbdkasn1layer.cpp:247-848 | the value arrives unchanged if and only if the target has its shape and the wire can carry it (TIME in whole microseconds, unions properly extended) |
| Asn1RoundTrip.ReceivedFieldAt | src/core/cominfra/fbdkasn1layer.cpp:826-848 | each struct member is received by itself, in its place |
| Asn1RoundTrip.ReceivedElemAt | src/core/cominfra/fbdkasn1layer.cpp:768-789 | element i of the target is set from element i of the sender if both have it, and untouched otherwise |
| Asn1Integers.SignedNumberArrives | src/core/cominfra/fbdkasn1layer.cpp:655-669 | after sign extension the union of a SINT, INT, DINT or LINT is the two's complement number that was on the wire |
| Asn1Integers.UnsignedNumberArrives | src/core/cominfra/fbdkasn1layer.cpp:655-669 | the union of every other scalar is the unsigned number that was on the wire |
| Asn1Prefixes.ArrayLength | src/core/cominfra/fbdkasn1layer.cpp:734-797 | array framing: the bytes used do not depend on the number of elements of the target |
| Asn1Prefixes.PointLength | src/core/cominfra/fbdkasn1layer.cpp:560-574 | the result code depends on the bytes and the type alone, not on the target |
| Asn1Prefixes.PointExtends | src/core/cominfra/fbdkasn1layer.cpp:560-848 | a decoded point is not changed by bytes that follow it |
| Asn1Prefixes.PointRetry | src/core/cominfra/fbdkasn1layer.cpp:560-848 | an attempt on too few bytes leaves nothing in the target that the attempt on more bytes could see |
| Asn1Properties.PointPrefixIncomplete | src/core/cominfra/fbdkasn1layer.cpp:560-848 | every non-empty proper prefix of an encoding gives exactly 0, the empty one -1: never success, never a type error |
| Asn1Properties.TagsDistinct | src/core/cominfra/fbdkasn1layer.cpp:209-213 | identifier octets tell struct-free types apart, up to arrays, which share one |
| Asn1Properties.RejectedIffOtherKind | src/core/cominfra/fbdkasn1layer.cpp:560-601 | a struct-free encoding is rejected with -2 if and only if the target is of another kind, and the target is then unchanged |
| Asn1Properties.ArrayMismatchLooksIncomplete | src/core/cominfra/fbdkasn1layer.cpp:734-797 | an array whose element type differs, at whatever depth, is not rejected: it reads as incomplete whatever follows, and the target is left alone |
| Asn1Properties.AcceptedIffSameType | src/core/cominfra/fbdkasn1layer.cpp:560-848 | whatever follows, a struct-free data point is accepted exactly by the targets of its own type, at every depth of nesting, and changes no other target |
| Asn1Properties.SizeExact | src/core/cominfra/fbdkasn1layer.cpp:851-889 | the predicted size of every struct-free value, nested arrays included, is the length of its encoding |
| Asn1Wire.Sent1 | src/core/cominfra/fbdkasn1layer.cpp:209-213 | a SINT, USINT or BYTE is one literal identifier octet and the low byte of its union |
| Asn1Wire.Sent2 | src/core/cominfra/fbdkasn1layer.cpp:209-213 | the same in two bytes for INT, UINT and WORD, most significant first |
| Asn1Wire.Sent4 | src/core/cominfra/fbdkasn1layer.cpp:209-213 | the same in four bytes for DINT, UDINT, DWORD and REAL |
| Asn1Wire.Sent8 | src/core/cominfra/fbdkasn1layer.cpp:209-213 | the same in eight bytes for LINT, ULINT, LWORD, LREAL, DATE, TIME_OF_DAY and DATE_AND_TIME |
| Asn1Wire.SentBool | src/core/cominfra/fbdkasn1layer.cpp:291-309 | a BOOL is the one octet 0x40 or 0x41 |
| Asn1Wire.SentText | src/core/cominfra/fbdkasn1layer.cpp:420-431 | a STRING is 0x50, two length octets and its characters |
| Asn1Wire.SentTime | src/core/cominfra/fbdkasn1layer.cpp:403-418 | a TIME is 0x4C and eight literal octets of two's complement microseconds, rounded toward zero |
| Asn1Wire.TimeTaken | src/core/cominfra/fbdkasn1layer.cpp:695-710 | a TIME of any 64-bit number of microseconds is taken, in nanoseconds that wrap around at 64 bits |
| Asn1Wire.SentStruct | src/core/cominfra/fbdkasn1layer.cpp:506-532 | a struct is its tag and the encodings of its members, without identifier octets but for BOOLs |
| Asn1Wire.SentArray | src/core/cominfra/fbdkasn1layer.cpp:454-503 | an array is 0x76, two length octets, the identifier octet of its first element and the payloads of all |
| Asn1Wire.SentBoolArray | src/core/cominfra/fbdkasn1layer.cpp:454-503 | an array of BOOLs is 0x76, two length octets and one octet 0x40 or 0x41 for each |
| Asn1Wire.Arrived8 | src/core/cominfra/fbdkasn1layer.cpp:648-693 | of the types of eight bytes every value arrives unchanged |
| Asn1Wire.UnchangedIff4 | src/core/cominfra/fbdkasn1layer.cpp:648-693 | of the types of four bytes exactly the values arrive unchanged whose upper bytes are zero, or for a DINT the sign |
| Asn1Wire.UnchangedIff2 | src/core/cominfra/fbdkasn1layer.cpp:648-693 | the same for the types of two bytes and INT |
| Asn1Wire.UnchangedIff1 | src/core/cominfra/fbdkasn1layer.cpp:648-693 | the same for the types of one byte and SINT |
| Asn1Wire.ArrivedAnywhere | src/core/cominfra/fbdkasn1layer.cpp:648-693 | the old contents of the target play no part in what arrives |
| Asn1Wire.FirstOctet | src/core/cominfra/fbdkasn1layer.cpp:560-601 | an octet without bit 7 is waited for; any other must be the one the type is sent with; neither touches the target |
| Asn1Wire.EmptyArrayTaken | src/core/cominfra/fbdkasn1layer.cpp:734-797 | an array without elements is taken with its length octets alone and changes nothing |
| Asn1Wire.MembersSoFar | src/core/cominfra/fbdkasn1layer.cpp:826-848 | struct members that have arrived in full are stored, whether the rest arrives or not |
| Asn1Sending.PacketSizeExact | src/core/cominfra/fbdkasn1layer.cpp:83-92 | the summed prediction for struct-free data points is the length of the packet |
| Asn1Sending.PacketOverrunsIff | src/core/cominfra/fbdkasn1layer.cpp:259-289 | the packet loop writes behind its room if and only if the room ends inside the header of an array of the first data point that does not fit |
| Asn1Sending.SendOverrunsIff | src/core/cominfra/fbdkasn1layer.cpp:79-125 | sending writes behind the buffer it uses if and only if there is nothing to send and nothing reserved, or the predicted size ends inside the header of an array and the reserved buffer does not hold it |
| Asn1Sending.PredictedStaysInside | src/core/cominfra/fbdkasn1layer.cpp:79-125 | a packet of data points that is no longer than predicted, or struct-free, never does |
| Asn1Sending.TextThenArray | src/core/cominfra/fbdkasn1layer.cpp:883-886 | a struct of a text and an array, always predicted as 255 bytes, does if and only if the text has 250 to 252 characters |
| Asn1Sending.ArrayThenText | src/core/cominfra/fbdkasn1layer.cpp:883-886 | the same members the other way round never do, however much longer than predicted they are |
| Asn1Sending.StructOverruns | src/core/cominfra/fbdkasn1layer.cpp:883-886 | of a struct of a text of 251 characters and an array, 257 bytes are written to a buffer of 255 |
| Asn1Sending.NullTagOverruns | src/core/cominfra/fbdkasn1layer.cpp:259-264 | a layer without data to send has reserved no room for the null tag that it writes |
| Asn1Layer.SerializePoints | src/core/cominfra/fbdkasn1layer.cpp:259-289 | the packet loop leaves exactly its attempt in the buffer, the concatenated encodings if they fit, and the rest as it was |
| Asn1Layer.Layer.constructor | src/core/cominfra/fbdkasn1layer.cpp:22-51 | a new layer has nothing buffered, expects the first RD, and has buffers of the sizes summed from the tag table |
| Asn1Sending.KnownSizesSuffice | src/core/cominfra/fbdkasn1layer.cpp:22-51 | the static buffer has room, with one byte to spare for each, for data points whose size the tag table knows |
| Asn1Sending.ReservedFor | src/core/cominfra/fbdkasn1layer.cpp:22-51 | the literal number of bytes that the constructor reserves for a data point of each type |
| Asn1Sending.StructSentIff | src/core/cominfra/fbdkasn1layer.cpp:79-125 | a struct is sent if and only if its encoding has at most 255 bytes |
| Asn1Sending.NothingToSend | src/core/cominfra/fbdkasn1layer.cpp:259-264 | nothing to send is the single octet 5 |
| Asn1Layer.Layer.ResizeDeserBuffer | src/core/cominfra/fbdkasn1layer.cpp:68-77 | the buffered bytes survive the move into a buffer of the new size |
| Asn1Layer.Layer.SendData | src/core/cominfra/fbdkasn1layer.cpp:79-125 | whenever it stays inside its buffer: the layer below gets the packet if that fits its predicted size and nothing otherwise, and the static buffer holds what was written |
| Asn1Sending.SentAndDelivered | src/core/cominfra/fbdkasn1layer.cpp:79-204 | every non-empty struct-free packet is sent, and one delivery of it stores all values, returns to the first RD and leaves nothing buffered |
| Asn1Layer.Layer.RecvData | src/core/cominfra/fbdkasn1layer.cpp:127-204 | the object computes Receive and keeps its invariant: buffered bytes are an incomplete point of the RD that is next |
| Asn1Layer.Layer.ProcessBytes | src/core/cominfra/fbdkasn1layer.cpp:150-201 | the receive loop stores points, counts packets and keeps or drops the rest as Consume says |
| Asn1Layer.Layer.ReceivePoint | src/core/cominfra/fbdkasn1layer.cpp:151-200 | one turn of the loop advances the RD position and takes exactly one point |
| Asn1Layer.Layer.AppendToBuffered | src/core/cominfra/fbdkasn1layer.cpp:140-149 | new bytes go behind the buffered ones, in a larger buffer if need be |
| Asn1Layer.Layer.StoreRest | src/core/cominfra/fbdkasn1layer.cpp:175-181 | the bytes of an incomplete point are what is buffered afterwards |
| Asn1Reassembly.ReceiveKeepsValid | src/core/cominfra/fbdkasn1layer.cpp:127-204 | every delivery leaves either nothing or an incomplete, never a mistyped, point buffered |
| Asn1Reassembly.ReceivesRightIffNoTailLost | src/core/cominfra/fbdkasn1layer.cpp:175-188 | in every reachable state a delivery is handled as a stream would be if and only if it does not both complete a point and end inside a later one on top of buffered bytes |
| Asn1Reassembly.ConsumeResumes | src/core/cominfra/fbdkasn1layer.cpp:127-204 | working through a stream can be interrupted anywhere |
| Asn1Reassembly.Reassembly | src/core/cominfra/fbdkasn1layer.cpp:127-204 | a stream in any fragments, none of the faulty kind, leaves the RD values, position and buffered bytes of one delivery |
| Asn1Reassembly.PacketDelivered | src/core/cominfra/fbdkasn1layer.cpp:127-204 | one delivery of a whole packet stores every value and counts one packet |
| Asn1Reassembly.PacketsCounted | src/core/cominfra/fbdkasn1layer.cpp:127-204 | every completed point fills the next RD and every last RD completes a packet, over any bytes |
| Asn1Reassembly.MistypedIff | src/core/cominfra/fbdkasn1layer.cpp:165-173 | the work stops with an error exactly at an octet with bit 7 that no value of the awaited type is sent with |
| Asn1Layer.AnsweredIff | src/core/cominfra/fbdkasn1layer.cpp:127-204 | a delivery is answered with an error if and only if it stops at another type, and with success if and only if it has filled the last RD before and does not |
| Asn1Reassembly.TwoFragmentsSuffice | src/core/cominfra/fbdkasn1layer.cpp:127-204 | every cut of a packet into two is harmless |
| Asn1Reassembly.CutInsideTwoPointsLosesTail | src/core/cominfra/fbdkasn1layer.cpp:175-188 | for every packet of two or more points the faulty case occurs: the arrived bytes of the second point are lost |
| Asn1Reassembly.DeafForEver | src/core/cominfra/fbdkasn1layer.cpp:140-201 | once the bytes of an array with another element type are buffered, no delivery changes any RD again and all of them are buffered behind it |
| Asn1Reassembly.DeafAfterMismatch | src/core/cominfra/fbdkasn1layer.cpp:140-201 | one delivery that begins with such an array is enough |
| Asn1Cuts.ConsumeUpTo | src/core/cominfra/fbdkasn1layer.cpp:150-201 | of the first a bytes of a stream of points exactly the points that end there are stored, and the bytes of the point that a lies in are left |
| Asn1Cuts.LosesTailIffFaulty | src/core/cominfra/fbdkasn1layer.cpp:175-188 | a delivery loses what has arrived if and only if it begins inside one point of the stream and ends inside a later one; any other brings the state that one delivery brings |
| Asn1Cuts.ReassembledIfSafelyCut | src/core/cominfra/fbdkasn1layer.cpp:127-204 | over every cutting of a stream of any number of packets, no bytes are lost if and only if no fragment begins inside one point and ends inside a later one, and then the fragments leave what the stream leaves at once |
| Asn1Cuts.PacketInFragments | src/core/cominfra/fbdkasn1layer.cpp:127-204 | a packet that is cut safely, into however many fragments, stores every value |
| EventRing.Ring.constructor | src/core/ecet.cpp:20-23 | a new ring is empty |
| EventRing.Ring.Clear | src/core/ecet.cpp:55-64 | clearing empties the ring, a swallowed entry included |
| EventRing.Ring.IsEmpty | src/core/ecet.h:90-98 | the comparison of the pointers says whether there is an entry to be had |
| EventRing.Ring.AddEventEntry | src/core/ecet.cpp:116-137 | one ring of n slots is a queue: the entry is appended, swallowed by the last slot, or dropped |
| EventRing.Ring.RemoveFirst | src/core/ecet.cpp:38-51 | the oldest entry comes out and its slot is free |
| EventRing.Ring.First | src/core/ecet.cpp:40 | the entry that is delivered is the oldest one |
| EventRing.AppendsIffRoom | src/core/ecet.cpp:116-137 | entries are all appended in order if and only if a slot stays free: n slots hold n - 1 entries |
| EventRing.StuckForEver | src/core/ecet.cpp:128-135 | once an entry is swallowed nothing can be added any more |
| EventChainExecutor.EventChainExecutor.constructor | src/core/ecet.cpp:20-23 | a new executor is in the initial state of the protocol: both rings empty, nothing owed |
| EventChainExecutor.EventChainExecutor.StoreExternalEvent | src/core/ecet.cpp:86-110 | the critical region of a producer is exactly the protocol step Store |
| EventChainExecutor.EventChainExecutor.ResumeSelfSuspend | src/core/ecet.h:60-62 | the increment behind the critical region is exactly the step SemInc |
| EventChainExecutor.EventChainExecutor.EndThread | src/core/ecet.cpp:149-150 | ending the thread is exactly the step Stop |
| EventChainExecutor.EventChainExecutor.LookAtExternalEvents | src/core/ecet.cpp:29-30 | the head of the worker loop is exactly the step CheckExternal |
| EventChainExecutor.EventChainExecutor.MoveExternalEvents | src/core/ecet.cpp:69-83 | the transfer loop ends and moves all entries in order; it meets a filled slot at every turn |
| EventChainExecutor.EventChainExecutor.TransferExternalEvents | src/core/ecet.cpp:66-84 | the critical region of the transfer is exactly the step TransferEvents |
| EventChainExecutor.EventChainExecutor.NextEntry | src/core/ecet.cpp:33-40 | the comparison of the pointers and the hand-over of the oldest entry are exactly the step CompareList |
| EventChainExecutor.EventChainExecutor.AddEventEntry | src/core/ecet.cpp:116-137 | an output event of the block being executed is exactly the step Emit |
| EventChainExecutor.EventChainExecutor.FinishEntry | src/core/ecet.cpp:42-50 | freeing the delivered slot is exactly the step EndDelivery |
| EventChainExecutor.EventChainExecutor.SelfSuspend | src/core/ecet.h:103-105 | returning from the wait is exactly the step SemWait |
| Executor.StepKeepsInv | src/core/ecet.cpp:28-137 | every step of producers and worker keeps the invariant on rings, logs, semaphore and pending increments |
| Executor.NoLostWakeUp | src/core/ecet.h:60-105 | in every interleaving a worker past its look at the external ring has a wake-up pending whenever that ring holds something |
| Executor.DeliveredInOrder | src/core/ecet.cpp:28-137 | in every run, overflow or not, entries are delivered in the order they were added and external events in the order they were started |
| Executor.NothingLost | src/core/ecet.cpp:28-137 | while nothing was swallowed, every started event is delivered or waiting in its place |
| Executor.QuietMeansDone | src/core/ecet.cpp:28-53 | a worker that waits with nobody left to wake it has delivered everything and was not told to stop |
| Executor.ExternalRingDies | src/core/ecet.cpp:86-114 | after a swallowed external event no later one is ever transferred, in any continuation |
| Executor.EventListDies | src/core/ecet.cpp:116-137 | after a swallowed entry no later one is ever delivered, in any continuation |
| Executor.NothingSwallowedIffRoom | src/core/ecet.cpp:86-137 | a run swallows nothing if and only if each of its steps leaves a slot free, the entry being delivered counting as held |
| WorkerLoop.StopsSoon | src/core/ecet.cpp:28-30 | once the thread is ended at most one more entry is delivered in any continuation, and none from Check, Deliver or Suspend |
| WorkerLoop.EndsIffStopped | src/core/ecet.cpp:28-29 | over every run the alive flag is taken back by Stop alone, and the next look at it ends the worker |
| WorkerLoop.LooksBetweenDeliveries | src/core/ecet.cpp:28-40 | in every run, what is in the external ring when a delivery ends is in the event list before the next delivery begins |
| WorkerLoop.RoundsCounted | src/core/ecet.cpp:28-53 | rounds of the loop, deliveries, waits and wake-ups balance over every run |
| WorkerLoop.NoBusyWaiting | src/core/ecet.cpp:28-53 | beyond its first round the worker goes round at most once for every entry delivered and every wake-up given |
| ForteTime.IncrementExact | src/arch/timerha.h:34-39 | incrementing the two words is adding one in 64 bits |
| ForteTime.PlusExact | src/arch/timerha.h:46-52 | the carry is right for every pair of operands |
| ForteTime.MinusExact | src/arch/timerha.h:54-60 | the borrow is right for every pair of operands |
| ForteTime.MinusUndoesPlus | src/arch/timerha.h:46-60 | taking away what was added restores the time, across any wrap-around |
| ForteTime.LaterExact | src/arch/timerha.h:72-78 | the word-wise comparison is the comparison of the 64-bit values |
| ForteTime.MinusTimeRightIffNoBorrow | src/arch/timerha.h:62-70 | the difference of two times is right if and only if the lower words need no borrow; otherwise it is one tick too small |
| TimerHandler.Handler.AddTimedFBEntry | src/arch/timerha.cpp:38-66 | the relinked chain holds the entry at its sorted place, due at the current time plus its interval; for a null interval plus a hundredth of a second, or a tick if ticks are longer |
| TimerHandler.Handler.constructor | src/arch/timerha.cpp:21-23 | a new handler has an empty list and time zero, which is a valid chain |
| TimerHandler.Handler.RegisterTimedFB | src/arch/timerha.cpp:29-36 | the 64-bit product of interval and rate is divided, truncated and cut to 32 bits, and the entry is linked in |
| TimerHandler.TicksOf | src/arch/timerha.cpp:31 | an interval of n nanoseconds is n times the tick rate, divided by 10^9, as far as it fits 32 bits |
| TimerHandler.TicksOfSeconds | src/arch/timerha.cpp:31 | an interval of n seconds is n times as many ticks as there are in a second |
| TimerHandler.Handler.UnregisterTimedFB | src/arch/timerha.cpp:68-93 | the chain loses the first entry of the block and nothing else |
| TimerHandler.Handler.NextTick | src/arch/timerha.cpp:95-123 | the clock advances by one and the sweep over the chain ends, fires and relinks as Sweep does |
| TimerHandler.Handler.Unlink | src/arch/timerha.cpp:72-88 | taking a node out keeps the chain acyclic and complete |
| TimerHandler.Handler.FireFirst | src/arch/timerha.cpp:105-120 | the head leaves the chain and a periodic one is linked in again |
| TimerList.SweepClosedForm | src/arch/timerha.cpp:101-121 | one sweep fires every due entry exactly once, in list order, and then holds the others and the renewed periodic ones |
| TimerList.SweepKeeps | src/arch/timerha.cpp:101-121 | after a sweep the list is sorted, free of double entries, and nothing in it is due |
| TimerList.RestHasFewerDue | src/arch/timerha.cpp:101-121 | each turn leaves fewer due entries, although it re-inserts: the sweep ends |
| TimerList.InsertAt | src/arch/timerha.cpp:42-65 | an entry goes behind all that are due no later: among equal times the first registered fires first |
| TimerSchedule.StepKeepsInv | src/arch/timerha.cpp:29-123 | every tick half, registration and unregistration keeps the list sorted, free of double entries and ahead of the sweep |
| TimerSchedule.PeriodicTimes | src/arch/timerha.cpp:95-123 | a registered periodic block fires at its due time and every d ticks after it, over any run that leaves it alone |
| TimerSchedule.SingleShotTimes | src/arch/timerha.cpp:95-123 | a single-shot block fires once, at its due time |
| TimerSchedule.StrangerTimes | src/arch/timerha.cpp:95-123 | an unregistered block never fires |
| TimerSchedule.TimesAreMultiples | src/arch/timerha.cpp:38-66 | the k-th firing of a schedule is at due + k * d |
| TimerSchedule.ExactSchedule | src/arch/timerha.cpp:29-123 | registered at time r with interval d, a periodic block fires at exactly r + d, r + 2d, ..., a single-shot one at exactly r + d, over every run of ticks and other registrations; the correction of a null interval is spelled out |
| TimerSchedule.ScheduleEnds | src/arch/timerha.cpp:29-123 | unregistering ends a schedule: the block fires at its times up to what had been swept by then, and not again |
| TimerSchedule.FiresLikeItsOwnAlarm | src/arch/timerha.cpp:29-123 | no interference: over every run, with registrations and unregistrations of this and all other blocks, the common list fires a block exactly when an alarm clock of its own would ring |
| TimerSchedule.FiringTimes | src/arch/timerha.cpp:21-123 | the same from the start of the timer, for every block and every run |
| TimerSchedule.AlarmIsSet | src/arch/timerha.cpp:38-46 | an alarm clock set at time r rings at r + d and goes on in steps of d, with the correction of a null interval spelled out |
| TimerSchedule.FlagsStayRight | src/stdfblib/timedfb.cpp:45-77 | an event or state command, or half a tick, leaves the activity flags telling who is registered |
| TimerSchedule.EventsAreTimerRun | src/stdfblib/timedfb.cpp:45-77 | over every run of events, state commands and ticks the flags stay right, and what reaches the timer never registers a block twice |
| TimerSchedule.EventsFire | src/stdfblib/timedfb.cpp:45-77 | from the start, whatever events follow, every block is fired exactly when its own alarm clock would ring, and its flag is set exactly while that clock is on |
| TimerSchedule.StartedFires | src/stdfblib/timedfb.cpp:45-64 | a block that is off and is started fires after d, 2d, ... of the ticks counted in the events, whatever else happens, until it is stopped; starting it again changes nothing |
| TimerSchedule.StoppedIsSilent | src/stdfblib/timedfb.cpp:45-77 | a block that is stopped never fires until it is started again |
| TickLoop.TimespecSub | src/arch/utils/timespec_utils.cpp:19-27 | the difference is exact and normalised, also when the result is an operand |
| TickLoop.TimespecAdd | src/arch/utils/timespec_utils.cpp:29-36 | the sum is exact and normalised, also when the result is an operand |
| TickLoop.TimespecLessThan | src/arch/utils/timespec_utils.cpp:38-48 | the comparison is that of the nanoseconds, up to one corner when the right one counts a full second in its nanoseconds |
| TickLoop.TakeTicks | src/arch/posix/pctimeha.cpp:54-57 | the inner loop ends and splits the remaining time into whole ticks and a rest below one |
| TickLoop.TakeReading | src/arch/posix/pctimeha.cpp:46-58 | one round of the loop accounts for the whole time since the last reading |
| TickLoop.Run | src/arch/posix/pctimeha.cpp:30-61 | after every clock reading the ticks given so far are exactly the whole periods since the first reading, the rest being the remainder |
| TickLoop.NominalRateIff | src/arch/posix/pctimeha.cpp:40 | the timer keeps its nominal rate over every number of seconds if and only if the rate divides a million |
| TickLoop.PeriodBetween | src/arch/posix/pctimeha.cpp:40 | the tick length is the multiple of a microsecond next below the nominal one |
| TickLoop.TicksInSeconds | src/arch/posix/pctimeha.cpp:40-57 | the ticks given in any number of seconds, bounded from both sides at every rate |
| TickLoop.InnerLoopEndsIff | src/arch/posix/pctimeha.cpp:40-57 | for every remaining time the inner loop ends if and only if there are at most a million ticks per second |
| CStrings.StrCmpIsAnOrder | src/core/stringdict.cpp:153 | the string comparison is zero for equal texts alone and antisymmetric |
| CStrings.BeforeIsTransitive | src/core/stringdict.cpp:153 | the string comparison is transitive |
| CStrings.BeforeMeans | src/core/stringdict.cpp:153 | the first byte that differs decides, and the beginning of a text comes before it |
| StringTable.LooksIssuedIffIssued | src/core/stringdict.cpp:85-94 | a position that starts the buffer or follows a terminator is an issued id, and no other position is |
| StringTable.TextAtId | src/core/stringdict.cpp:209-224 | at an issued id the buffer reads as exactly the text inserted there |
| StringTable.IdsGrow | src/core/stringdict.cpp:209-224 | later texts lie behind earlier ones with their terminators: ids differ |
| StringTable.IndexGrows | src/core/stringdict.cpp:218-221 | inserting at the found place keeps the index sorted and complete |
| StringTable.PlaceIsUnique | src/core/stringdict.cpp:140-168 | there is only one place that keeps the index sorted |
| StringTable.OnlyAppends | src/core/stringdict.cpp:97-137 | no run of insertions moves, changes or removes a text |
| StringTable.SameIdIffSameText | src/core/stringdict.cpp:97-137 | over every run of insertions two requests get the same id exactly when their texts agree |
| StringTable.ResolvedIffIssued | src/core/stringdict.cpp:85-94 | an id resolves if and only if some text of the table has it, and then to that text |
| StringTable.IdsKeepResolving | src/core/stringdict.cpp:85-137 | an id given out resolves to its text after every later insertion, growth and refusal |
| StringTable.RefusedIff | src/core/stringdict.cpp:97-137 | a request is refused exactly when its text is empty, or new and without memory |
| StringTable.HoldsIffAccepted | src/core/stringdict.cpp:97-137 | over every run the dictionary holds exactly the texts it had and those that were given an id |
| StringDictionary.IdBufferGrowsIff | src/core/stringdict.cpp:112 | growth by half really grows the id buffer if and only if it has two entries or more and three times its size fits 32 bits, and then by half |
| StringDictionary.BufferGrowsEnoughIff | src/core/stringdict.cpp:125 | growth by half gives room for the text if and only if three times the required size fits 32 bits |
| StringDictionary.StringDictionary.constructor | src/core/stringdict.cpp:24-63 | the constant strings are the first texts of the dictionary, and the buffers have the configured sizes, or half as much again as the constants need |
| StringDictionary.StringDictionary.Get | src/core/stringdict.cpp:85-94 | a text is found exactly for the issued ids, and it is the one inserted |
| StringDictionary.StringDictionary.FindEntry | src/core/stringdict.cpp:140-168 | binary search ends with the id of the text if it is there and otherwise with its place in the index |
| StringDictionary.StringDictionary.GetId | src/core/stringdict.h:51-54 | the id of a text that is there, the invalid id otherwise |
| StringDictionary.StringDictionary.Insert | src/core/stringdict.cpp:97-137 | the new contents and the id are those of Inserted and Reply, through both growth steps and both allocation failures |
| StringDictionary.StringDictionary.InsertAt | src/core/stringdict.cpp:209-224 | text and id go to their places and every issued id keeps its text |
| StringDictionary.StringDictionary.ReallocateStringIdBuf | src/core/stringdict.cpp:171-187 | the index survives growth and failed growth |
| StringDictionary.StringDictionary.ReallocateStringBuf | src/core/stringdict.cpp:190-206 | the texts survive growth and failed growth |
| LinkedList.List.PushFront | src/core/fortelist.h:116-122 | the element is put in front; first and last pointer stay right |
| LinkedList.List.PushBack | src/core/fortelist.h:125-135 | the element is put behind all others through the last pointer |
| LinkedList.List.PopFront | src/core/fortelist.h:138-145 | the first element is gone, and with the only element both pointers |
| LinkedList.List.ClearAll | src/core/fortelist.h:148-152 | the list is empty and the loop ends |
| LinkedList.List.EraseAfter | src/core/fortelist.h:155-164 | exactly the node behind the given one is gone, the last pointer is right and the successor is returned |
| Connections.GetPortId | src/core/funcbloc.cpp:545-552 | the first port of the name, or the invalid port id for an unknown name |
| Connections.EventConnection.DstExists | src/core/conn.cpp:60-70 | the walk over the nodes finds a destination if and only if it is there |
| Connections.EventConnection.AddDestination | src/core/conn.cpp:19-27 | a new destination goes to the end, a known one is refused |
| Connections.EventConnection.RemoveDestination | src/core/conn.cpp:30-52 | the destination is taken out of its place, and refused if it is not there |
| Connections.EventConnection.Connect | src/core/eventconn.cpp:23-31 | connecting to an event input answers and changes the list as Answer and Changed say (AnsweredIff) |
| Connections.EventConnection.ConnectToCFBInterface | src/core/eventconn.cpp:33-42 | the same for an output of the enclosing composite, with a marked port number |
| Connections.EventConnection.Disconnect | src/core/eventconn.cpp:47-55 | disconnecting an event input answers and changes the list as Answer and Changed say |
| Connections.EventConnection.TriggerEvent | src/core/eventconn.cpp:58-63 | every destination is offered to the ring once and in order, and all are appended if and only if the ring has room for all |
| Connections.DestinationsInJoiningOrder | src/core/eventconn.cpp:23-55 | over every run of connects and disconnects the destinations are exactly the points that have joined for good, each once, in the order of joining |
| Connections.InterfaceConnectionsStay | src/core/eventconn.cpp:33-55 | no run of disconnects takes back a connection to the interface of the enclosing block |
| Connections.TargetMeans | src/core/eventconn.cpp:23-55 | a change is about the first port of its name, an event input or, marked with the bit 0x100, an event output |
| Connections.AnsweredIff | src/core/eventconn.cpp:23-55 | RDY exactly if the destinations change, NO_SUCH_OBJECT exactly if there is no such port, INVALID_STATE otherwise |
| LayerId.ExtractLayerIdAndParams | src/core/cominfra/basecommfb.cpp:159-178 | cutting in place leaves the name and the parameters of the first layer as C strings and moves to the text behind them, or to null when a bracket is missing |
| LayerId.CreateComstack | src/core/cominfra/basecommfb.cpp:100-138 | the loop ends and builds the stack, and the response, that Stacked describes |
| LayerId.ParsedBackIff | src/core/cominfra/basecommfb.cpp:100-178 | a printed list of layers is parsed back if and only if no name holds an opening and no parameter a closing bracket |
| LayerId.StackIsUpIff | src/core/cominfra/basecommfb.cpp:100-138 | a stack comes up exactly for an ID that parses into known layers that all open, and consists of these |
| LayerId.WrittenStackComesUp | src/core/cominfra/basecommfb.cpp:100-138 | every stack that can be written down comes up as written if its layers open |
| LayerId.StackEndsAt | src/core/cominfra/basecommfb.cpp:100-138 | the layers of an ID are created in turn up to the first that is unknown, which is not, or fails to open, which is; that failure is the answer |
| LayerId.PrintedAgainIff | src/core/cominfra/basecommfb.cpp:159-178 | an ID that parses is the print of what it parses into if and only if its layers are separated by dots and nothing follows the last one |
| LayerId.PrintedIff | src/core/cominfra/basecommfb.cpp:159-178 | the IDs that are the print of some list of layers are exactly those that parse and are dot-separated |
| LayerId.SeparatorAccepted | src/core/cominfra/basecommfb.cpp:170-176 | any one character behind a closing bracket is taken for the separator, also in front of nothing |
| LayerId.AcceptedThoughNotDotSeparated | src/core/cominfra/basecommfb.cpp:170-176 | a[b].c[d] is the print of two layers, and a[b]Xc[d] is accepted as the same two |
| PathMap.CreateKeepsDistinct | src/core/fbcontainer.cpp:44-71 | creating never gives two blocks or subcontainers of one container the same name, at any depth |
| PathMap.DeleteKeepsDistinct | src/core/fbcontainer.cpp:73-118 | deleting keeps names distinct although it may make containers |
| PathMap.CommandKeepsDistinct | src/core/resource.cpp:164-179 | state commands keep names distinct |
| PathMap.CreateSeen | src/core/fbcontainer.cpp:44-71 | creating succeeds if and only if path and library allow it, adds exactly that path to the map, and leaves the containers on the way in any case |
| PathMap.DeleteSeen | src/core/fbcontainer.cpp:73-118 | deleting removes exactly the path of a deletable block that is not running, answers accordingly, and leaves the same containers on the way |
| PathMap.FailedDeleteBlocksIff | src/core/fbcontainer.cpp:73-84 | after a deletion that found nothing, exactly the creations at the containers it left behind have become impossible |
| PathMap.GetMeans | src/core/fbcontainer.cpp:135-147 | a lookup goes down as far as there are containers and takes the block of the next name |
| PathMap.GetIsRightIff | src/core/fbcontainer.cpp:135-147 | the lookup answers the block of the path, or none if there is none, if and only if no block stands at a proper part of the path |
| PathMap.CommandSeen | src/core/resource.cpp:164-179 | a state command changes exactly the block that the lookup comes to |
| PathMap.CommandGoesAstrayIff | src/core/resource.cpp:170-177 | a command whose path names no block is carried out on another one if and only if a block stands at a proper part of the path |
| PathMap.NamelessFound | src/core/fbcontainer.cpp:120-162 | nothing is found under the invalid id |
| PathRuns.StepRefines | src/core/fbcontainer.cpp:44-194 | every step on the container tree is the step on a plain map of paths and set of containers, with the same answer |
| PathRuns.RunRefines | src/core/fbcontainer.cpp:44-194 | over every run of creations, deletions and state commands the tree answers and looks like that map, and names stay distinct |
| PathRuns.RunsOnIff | src/core/fbcontainer.cpp:73-118 | a running block runs on at its path through any step but a STOP or KILL that comes to it, and is not deleted |
| PathRuns.StartedStays | src/core/funcbloc.h:322-330 | a block that has answered START stays at its path and runs over every run without such a command, each deletion of it being refused |
| PathRuns.TargetedCommand | src/core/resource.cpp:164-179 | a command with a target changes nothing of a resource but the block that the lookup comes to |
| PathRuns.UntargetedCommand | src/core/resource.cpp:164-179 | one without a target is for all that the resource holds |
| CreationOrder.CreatedStates | src/core/fbcontainer.cpp:44-71 | creating a block puts exactly its states into the order of commands, behind everything in its container |
| CreationOrder.DeletedStates | src/core/fbcontainer.cpp:73-118 | deleting a block takes exactly its states out of that order |
| CreationOrder.CreatedBlocksStop | src/core/resource.cpp:140-162 | a block created anywhere below a running resource keeps it from being stopped |
| FBContainer.FBContainer.GetFB | src/core/fbcontainer.cpp:120-133 | the walk over the list finds the first block of the name, and nothing for the invalid name |
| FBContainer.FBContainer.GetFBContainer | src/core/fbcontainer.cpp:149-162 | the walk over the list finds the subcontainer of the name |
| FBContainer.FBContainer.FindOrCreateContainer | src/core/fbcontainer.cpp:164-175 | the object tree gains the subcontainer unless it or a block of its name is there |
| FBContainer.FBContainer.GetContainedFB | src/core/fbcontainer.cpp:135-147 | the object found, and the position in the path, are those of Get |
| FBContainer.FBContainer.CreateFB | src/core/fbcontainer.cpp:44-71 | the recursion over the objects computes Create: same tree, same answer, nothing else changed |
| FBContainer.FBContainer.DeleteFB | src/core/fbcontainer.cpp:73-118 | the recursion over the objects computes Delete: same tree, same answer, nothing else changed |
| FBContainer.FBContainer.CommandFB | src/core/resource.cpp:164-179 | the walk over the objects computes CommandAt |
| FBContainer.FBContainer.ChangeContainedFBsExecutionState | src/core/fbcontainer.cpp:177-194 | the two loops over the lists compute ChangeContained |
| FBContainer.FunctionBlock.ChangeItself | src/core/funcbloc.cpp:414-457 | the state changes exactly when the command is legal in it; adapters follow, their answers unread |
| FBContainer.FunctionBlock.ChangeParts | src/core/cfb.cpp:109-121 | the parts of a composite, and the container of a resource, get the command up to the first refusal |
| FBContainer.FunctionBlock.ChangeFBExecutionState | src/core/resource.cpp:140-162 | the recursion over the objects computes Change for blocks, composites and resources |
| FBContainer.FunctionBlock.HandleExecutionStateCmd | src/core/resource.cpp:164-179 | a command without target is for the resource itself, one with a target for the block the lookup comes to |
| FBContainer.CreateBlock | src/core/typelib.cpp:108-155 | a new object is a fresh tree with the contents of NewBlock |
| ExecutionState.ChangeIsSweep | src/core/resource.cpp:140-162 | a command on a tree of blocks, containers, composites and resources is a plain sweep over the list of all their states, stopped by the first that does not admit it |
| ExecutionState.SweptMeans | src/core/fbcontainer.cpp:177-194 | a sweep is answered with RDY exactly if all states admit the command, and changes exactly those in front of the first that does not |
| ExecutionState.ReadyIffAllAdmit | src/core/resource.cpp:140-162 | RDY if and only if every block below admits the command, and then each has reached its target state |
| ExecutionState.UniformStaysUniform | src/core/resource.cpp:140-162 | on a uniform tree the root transition alone decides, and the tree stays uniform |
| ExecutionState.AdaptersStayInStep | src/core/funcbloc.cpp:447-455 | adapters stay in the state of their block, so none of the responses that are ignored is ever a refusal |
| ExecutionState.NewBlockIsIdle | src/core/typelib.cpp:149-152 | a new block is idle throughout, although the reset of a composite is refused by its parts |
| ExecutionState.NewBlockBlocksStop | src/core/resource.cpp:140-162 | stopping a running resource that has gained a block fails, with everything stopped but that block |
| ExecutionState.FailureChangesNothingIff | src/core/resource.cpp:140-162 | a command that fails leaves the tree as it was if and only if it is the root that does not admit it |
| ExecutionState.NoCommandTwice | src/core/funcbloc.cpp:414-457 | a command that got past the root is refused when sent again and changes nothing: it cannot be repeated to finish what it left undone |
| ExecutionState.StartRecovers | src/core/resource.cpp:140-162 | starting the half-stopped resource is answered with RDY and makes everything run, the new block too |
| CommandRuns.NewBlockHas | src/core/typelib.cpp:149-152 | a new block is idle, with idle adapters, the parts of its type in their order and, if it is a resource, an empty container |
| CommandRuns.ReadyMeans | src/core/funcbloc.cpp:414-444 | for each command the states that all blocks below must be in for RDY, the state it leads to, and the refusal otherwise |
| CommandRuns.KilledUntilReset | src/core/funcbloc.cpp:414-444 | a killed block stays as it is, whatever it is sent, until a reset |
| CommandRuns.CommandsOnNewBlock | src/core/funcbloc.cpp:414-457 | over every run of commands on a new block the last one in order tells the state of everything below, and exactly what is in order then is answered with RDY |
| CommandRuns.CommandOrder | src/core/fbcontainer.cpp:177-194 | a command comes by a block, its internal blocks and its container, there the subcontainers before the blocks, in the order of creation |

## Left out

- Asn1Layer.Layer.SendData: what becomes of a call for which SendOverruns holds, as the code then writes behind its buffer.
- Asn1Serializer.SerializeDataPoint: the buffer must have room for the bytes of the attempt, whatever room is stated.
- StringDictionary.StringDictionary.Insert: for a text that is new, a full id buffer must have at least two entries and three times the new sizes must fit 32 bits; outside of this the code writes past its buffers.
- StringDictionary.StringDictionary.constructor: both allocations succeed; the code leaves its counters undefined otherwise. The fixed-memory build is not modelled.
- TickLoop.Run: at most a million ticks per second, as the loop does not end beyond that (InnerLoopEndsIff); the calls of nextTick are counted, the run ends when the readings do.
- TimerHandler.Handler.NextTick: the 64-bit time does not wrap around; notifyTime of the device execution is left out.
- TimerHandler.Handler.RegisterTimedFB: a product of interval and tick rate that does not fit 64 bits wraps around, where C++ leaves it undefined; the time base is the default of one nanosecond.
- FBContainer.FunctionBlock.ChangeItself: the parameters and initial values that a reset writes to the data of the block.
- FBContainer.FunctionBlock.ChangeFBExecutionState: input sampling of resources, and the start and stop of the executor.
- FBContainer.FBContainer.CommandFB: the lookup and the change of the block found are one walk down, where the code returns a pointer and then calls the block.
- LayerId.CreateComstack: no layer has an empty name; how a layer opens depends on its name and parameters alone.
- Container lists are sequences that the methods reassign; that the linked list behaves as a sequence is proved in `LinkedList`. A block's adapters are kept as their states. Internal blocks of a type the library does not know are null pointers that the code skips; they are not part of a modelled composite. Deleted objects stay in the footprint of their container.
- Data points are values that the deserializer returns instead of objects that it changes in place, so aliasing between them is not captured.
- WSTRING and custom data types, big-endian and mixed-endian builds, builds whose largest integers have 32 bits; REAL and LREAL are bit patterns.
- Executor: the flag that tells whether events are being processed, clearing and killing while the worker runs, monitoring that triggers events from its own thread.
- E_DELAY, which overrides the guards of the timed blocks.
- `CFBContainer::addFB`, which does not look at names; names equal to the invalid string id, which creation does not refuse.
- Data connections, adapter connections, dynamic type loading, monitoring, responses in XML, sockets, threads and the ports to other operating systems.

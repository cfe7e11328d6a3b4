# Brickred: a verified model

Brickred is a C++ library for event-driven network programs. This project models its
algorithmic core in Dafny and proves what that core is for. `dafny verify dfyconfig.toml`
checks all of it.

| files | what they model |
|---|---|
| `RankNodes`, `RankSurgery`, `RankSet`, `RankCopy`, `RankTheory` | the order-statistic red-black tree with parent pointers and a header node |
| `Timestamps`, `HeapOrder`, `TimerRuns`, `TimerIds`, `TimerHeap` | the timer heap, indexed from 1, with back pointers and an id map |
| `Bytes`, `DynamicBuffer` | bytes, byte order and the growing byte queue |
| `WebSocketFrames`, `WebSocketMachine`, `WebSocketRuns`, `WebSocketTheory`, `WebSocketExamples`, `WebSocket` | the frame layer of RFC 6455 in both roles |
| `Words`, `WordBits`, `MachineWords` | 32-bit words as numbers, their bits, and the same on machine words |
| `MersenneTwister`, `KeySeeding`, `BoundedDraws`, `Mt19937`, `Mt19937Machine`, `Mt19937Example` | the MT19937 generator, bounded draws, and its published numbers |
| `QueueMonitor` | the blocking queue under any scheduling |
| `TcpMachine`, `TcpService` | the sending side of TCP connections against an adversarial socket |
| `Blocks`, `Primes`, `Sha256Spec`, `Sha256`, `Sha256Bits`, `Sha256Machine`, `Sha256Example` | streaming SHA-256 against FIPS 180-4, and its published example |
| `Base64`, `Base64Laws` | strict base64, and its letters as digits of base 64 |
| `HttpText`, `HttpMachine`, `HttpTheory`, `HttpStreams`, `HttpLaws`, `Http` | the HTTP writer and the Content-Length path of the reader |
| `Options`, `Sequences`, `Arithmetic`, `AsciiText` | a value that may be missing, and facts shared by the rest |

Code that changes things in place is modelled by classes and methods that do the same to the
same fields, and is proved against a specification function or an abstract sequence; the
theorems are lemmas about those. In the tree every node carries ghost fields: its place in the
in-order sequence, the interval its subtree covers and its black height. With them the whole
invariant is a statement about each node and its neighbours, which a rotation or a relinking
changes at a few nodes only; `RankTheory` connects it with recursion over the links.

Writing and reading, or a method and its specification function, could agree on something
wrong. So each is also pinned from outside: by a law that names none of it (`EveryoneIsServed`,
`EveryTimerIsAdded`, `SendIsAcceptedOrFails`, `EncodeIsBase64`, `WrittenAsText`, the bit laws of
`Sha256Bits`), or by published values computed in the proof on machine words and carried over
to the model (`DigestOfAbc`, `OutputsOfUsualSeed`, `OutputOfAuthorsKey`, `MaskedHello`,
`PublishedVectors`).

Where an outside part decides something, the model takes it as a parameter and every theorem
holds for all its choices: what a socket takes of a send, which sleeping thread a signal wakes,
the order in which a hash map is walked, the mask bytes a generator gives, the clock.
Callbacks appear as logs of what was called.

What the code does that its interface does not tell:

- A connection that is not connected, in error or not, never becomes connected again exactly
  if it is not still being made (`NeverConnectedAgain`). An attempt that has timed out is not
  over: the write callback stays, and the connection becomes connected when the socket does
  (`TimeoutIsNotFinal`).
- A message with header fields but neither Content-Length nor chunked coding is written but
  refused by the reader (`NoLengthIsRefused`); `MessageRoundTrip` says exactly which messages
  come through, and `StreamOverSegments` the same for many in a row. The length is read by
  `atoi`, here that of a C library with a 64-bit long: a true length is understood exactly
  below 2^31, and 2^32 is taken for 0 (`LengthTold`).
- A WebSocket frame that fails after it has been read is consumed, and its payload stays in the
  buffer of its kind (`FailureConsumes`, `RefusedFrameStays`); reserved data opcodes are refused
  only at the final frame (`TakeEffect`).
- A timer id is tried again only after 2^63 - 1 additions; if it is still in use then, the
  addition fails (`AddFailsOnlyAfterWrap`).
- A second timer for a socket takes the place of the first in one map but not in the other
  (`AddSocketTimer`).
- The number of bytes a base64 function returns is an int, so from 2^31 on a string is cut short
  or empty (`EncodeString`, `DecodeString`).
- A payload of 2^63 bytes or more would be sent but refused by the other side.
- Bounded draws return only if a word at or above the threshold ever comes. The methods take
  the distance to such a word as a ghost parameter; more than half of all words qualify
  (`MostAreKept`).

## Model

| member | source | states |
|---|---|---|
| `RankSets.RankSet.constructor` | src/brickred/rank_set.h:1098-1101 | a new set is valid and empty |
| `RankSets.RankSet.ResetHeaderNode` | src/brickred/rank_set.h:93-104 | the header of an empty tree: no root, itself as least and greatest |
| `RankSets.RankSet.UpdateNodeCount` | src/brickred/rank_set.h:149-157 | a node's count becomes one more than its children's, whatever it was, and nothing else changes |
| `RankSets.RankSet.UpdateNodeCountUp` | src/brickred/rank_set.h:159-171 | going up from one wrong count to the root makes every count exact again |
| `RankSets.RankSet.UpdateNodeCountToTop` | src/brickred/rank_set.h:159-171 | from any start, the header included, the whole loop leaves every count exact |
| `RankSets.RankSet.RotateLeft` | src/brickred/rank_set.h:173-211 | exactly the links of the rotation change; shape, in-order places and every subtree count stay right |
| `RankSets.RankSet.RotateRight` | src/brickred/rank_set.h:213-245 | exactly the links of a right rotation change; shape, in-order places and every subtree count stay right |
| `RankSets.RankSet.InsertRecolor` | src/brickred/rank_set.h:365-369 | a red uncle: recolouring moves the only suspect pair of red nodes up by two levels and keeps black heights |
| `RankSets.RankSet.InsertInnerLeft` | src/brickred/rank_set.h:376-379 | an inner grandchild is rotated outwards, the pair in doubt staying below the same grandparent |
| `RankSets.RankSet.InsertInnerRight` | src/brickred/rank_set.h:419-422 | an inner grandchild on the right is rotated outwards, the pair in doubt staying below the same grandparent |
| `RankSets.RankSet.InsertOuterLeft` | src/brickred/rank_set.h:391-393 | recolouring and one rotation at the grandparent end the fixup: no red pair is left |
| `RankSets.RankSet.InsertOuterRight` | src/brickred/rank_set.h:433-435 | recolouring and one left rotation at the grandparent end the fixup: no red pair is left |
| `RankSets.RankSet.InsertNodeFixup` | src/brickred/rank_set.h:347-442 | the loop ends with a balanced tree: black root, no red pair, equal black heights, exact counts |
| `RankSets.RankSet.InsertNode` | src/brickred/rank_set.h:247-345 | an equivalent value leaves the set untouched and is returned with false; otherwise the in-order sequence gains exactly the new node at its sorted place |
| `RankSets.RankSet.Unlink` | src/brickred/rank_set.h:478-494 | a node with a missing child is taken out of the links; what is lost is exactly one black node on the paths below its parent, or nothing |
| `RankSets.RankSet.Relink` | src/brickred/rank_set.h:495-533 | a node with two children is replaced by its successor node itself, with links, colour and count; no value is copied |
| `RankSets.RankSet.TakeOut` | src/brickred/rank_set.h:456-545 | both cases together: the in-order sequence loses exactly the node |
| `RankSets.RankSet.EraseRedSiblingLeft` | src/brickred/rank_set.h:563-568 | a red sibling: recolouring and rotation lead to a black one, the missing black staying where it was |
| `RankSets.RankSet.EraseBlackFamilyLeft` | src/brickred/rank_set.h:576-582 | a black family: the missing black moves one level up |
| `RankSets.RankSet.EraseInnerNephewLeft` | src/brickred/rank_set.h:595-603 | a red inner nephew is rotated outwards |
| `RankSets.RankSet.EraseOuterNephewLeft` | src/brickred/rank_set.h:613-620 | a red outer nephew makes up for the missing black: the loop ends |
| `RankSets.RankSet.EraseRedSiblingRight` | src/brickred/rank_set.h:634-639 | a red left sibling: recolouring and rotation lead to a black one, the missing black staying where it was |
| `RankSets.RankSet.EraseBlackFamilyRight` | src/brickred/rank_set.h:647-653 | a black family on the left: the missing black moves one level up |
| `RankSets.RankSet.EraseInnerNephewRight` | src/brickred/rank_set.h:666-674 | a red inner nephew on the left is rotated outwards |
| `RankSets.RankSet.EraseOuterNephewRight` | src/brickred/rank_set.h:684-691 | a red outer nephew on the left makes up for the missing black: the loop ends |
| `RankSets.RankSet.EraseNodeFixup` | src/brickred/rank_set.h:547-699 | the loop, in which x carries one extra black, terminates with a balanced tree and exact counts |
| `RankSets.RankSet.LeaveEnds` | src/brickred/rank_set.h:444-454 | least and greatest node of the header no longer name the node about to go |
| `RankSets.RankSet.EraseNode` | src/brickred/rank_set.h:444-545 | erasing any node keeps the whole invariant; the in-order sequence loses exactly that node |
| `RankSets.RankSet.Erase` | src/brickred/rank_set.h:1254-1264 | erasing at an iterator gives the old in-order successor, still in the tree and now at the erased place; end is returned as it is |
| `RankSets.RankSet.EraseValue` | src/brickred/rank_set.h:1266-1274 | an element goes exactly if an equivalent one is there |
| `RankSets.RankSet.Clear` | src/brickred/rank_set.h:1166-1170 | nothing is left |
| `RankSets.RankSet.Increment` | src/brickred/rank_set.h:22-55 | the next node in order, the header after the last one, also from a root without right child |
| `RankSets.RankSet.Decrement` | src/brickred/rank_set.h:57-91 | the previous node in order, the last one from the header |
| `RankSets.RankSet.FindNode` | src/brickred/rank_set.h:701-722 | a node equivalent to the value, or the header exactly if there is none |
| `RankSets.RankSet.LowerBoundNode` | src/brickred/rank_set.h:724-739 | the first node not less than the value |
| `RankSets.RankSet.UpperBoundNode` | src/brickred/rank_set.h:741-756 | the first node the value is less than |
| `RankSets.RankSet.CountIsExact` | src/brickred/rank_set.h:149-157 | under the local count equation a node's count is the length of its in-order interval |
| `RankSets.RankSet.SelectNode` | src/brickred/rank_set.h:758-777 | the k-th node in order, the header if there is none |
| `RankSets.RankSet.RankNode` | src/brickred/rank_set.h:779-800 | the place of the first element not less than the value |
| `RankSets.RankSet.InsertedSorted` | src/brickred/rank_set.h:247-345 | inserting at the lower bound keeps strictly sorted what is strictly sorted |
| `RankCopies.CopyNodes` | src/brickred/rank_set.h:117-141 | new nodes for a whole subtree, each with the value, colour, count and place of its twin and with twins for neighbours |
| `RankCopies.CopiedLinks` | src/brickred/rank_set.h:117-141 | links and the colour rule of a twin follow from those of the original |
| `RankCopies.CopyIsBalanced` | src/brickred/rank_set.h:117-141 | the copy has the shape, the counts and the colour rules of the original |
| `RankCopies.Copy` | src/brickred/rank_set.h:1103-1131 | a valid set with the same values in the same order that shares no node with the original |
| `RankCopies.SetEnds` | src/brickred/rank_set.h:1113-1128 | least and greatest node are found from the root |
| `RankTheory.InOrderIsInterval` | src/brickred/rank_set.h:11-20 | the recursive in-order traversal of a subtree is the interval its root stands for |
| `RankTheory.InOrderOfRoot` | src/brickred/rank_set.h:93-104 | the sequence all operations speak of is the in-order traversal of the whole tree |
| `RankTheory.PathFromNode` | src/brickred/rank_set.h:347-442 | every path down has as many black nodes as every other, and at most twice as many nodes |
| `RankTheory.BlackHeightBoundsSize` | src/brickred/rank_set.h:347-442 | a subtree of black height b has at least 2^b - 1 nodes |
| `RankTheory.TreeIsBalanced` | src/brickred/rank_set.h:547-699 | all paths have equally many black nodes, and n + 1 >= 2^(h/2) for n nodes and height h |
| `RankTheory.RankCountsSmaller` | src/brickred/rank_set.h:779-800 | what rank returns is the number of elements less than the value |
| `RankTheory.RankOfSelected` | src/brickred/rank_set.h:758-800 | rank undoes select |
| `RankTheory.SelectOfRank` | src/brickred/rank_set.h:758-800 | select undoes rank on members |
| `RankTheory.BoundsEncloseEquals` | src/brickred/rank_set.h:724-756 | lower and upper bound enclose the at most one equivalent element |
| `RankTheory.Walk` | src/brickred/rank_set.h:1178-1206 | from begin to end by increments: every node exactly once, in order |
| `RankTheory.WalkBack` | src/brickred/rank_set.h:1178-1206 | from end to begin by decrements: every node exactly once, from the last to the first |
| `RankTheory.StepAndBack` | src/brickred/rank_set.h:22-91 | a decrement undoes an increment, also from the end |
| `RankTheory.BackAndStep` | src/brickred/rank_set.h:22-91 | an increment undoes a decrement, from end and from every node but the first |
| `Timestamps.PlusMoves` | src/brickred/timestamp.cc:26-39 | adding milliseconds, also negative ones, moves the moment by exactly that much and keeps nanoseconds normalized |
| `Timestamps.PlusAddsUp` | src/brickred/timestamp.cc:26-39 | delays add up |
| `Timestamps.LessComparesMoments` | src/brickred/timestamp.cc:41-63 | the two orders compare nanoseconds and milliseconds; the second is coarser |
| `Timestamps.DistanceIsDifference` | src/brickred/timestamp.cc:80-95 | the distance is that of the rounded moments, in either direction |
| `HeapOrder.MoveUp` | src/brickred/timer_heap.cc:248-267 | one swap with the parent moves the only violation up |
| `HeapOrder.MoveDown` | src/brickred/timer_heap.cc:269-294 | one swap with the earlier child moves the only violation down |
| `HeapOrder.UpDone` | src/brickred/timer_heap.cc:248-267 | where the parent is not later the heap is in order |
| `HeapOrder.DownDone` | src/brickred/timer_heap.cc:269-294 | where no child is earlier the heap is in order |
| `HeapOrder.TopIsLeast` | src/brickred/timer_heap.cc:296-302 | the first slot holds a least key |
| `HeapOrder.ReplacedKey` | src/brickred/timer_heap.cc:222-246 | the last key put into an arbitrary slot leaves one violation, upwards or downwards |
| `HeapOrder.KeyLeft` | src/brickred/timer_heap.cc:222-246 | without any one key the heap is in order, or has one violation, and the comparison with the parent tells in which direction |
| `TimerHeaps.TimerHeap.MinHeapShiftUp` | src/brickred/timer_heap.cc:248-267 | order is restored upwards, and every member knows its slot |
| `TimerHeaps.TimerHeap.MinHeapShiftDown` | src/brickred/timer_heap.cc:269-294 | order is restored downwards, and every member knows its slot |
| `TimerHeaps.TimerHeap.MinHeapInsert` | src/brickred/timer_heap.cc:213-220 | the members gain exactly the timer; order and positions hold |
| `TimerHeaps.TimerHeap.LeaveSlot` | src/brickred/timer_heap.cc:222-240 | a timer taken out of any slot leaves the others in place, with at most one of them out of order |
| `TimerHeaps.TimerHeap.MinHeapErase` | src/brickred/timer_heap.cc:222-246 | the members lose exactly the timer, from whatever slot |
| `TimerHeaps.TimerHeap.MinHeapTop` | src/brickred/timer_heap.cc:296-302 | a least member, or none |
| `TimerHeaps.TimerHeap.constructor` | src/brickred/timer_heap.cc:105-108 | no timers |
| `TimerHeaps.TimerHeap.AddTimer` | src/brickred/timer_heap.cc:132-158 | exactly one entry is added, due after the delay (negative ones count as 0); an id in use adds nothing; while the counter has not come round, the id is above all given before and one timer more is pending |
| `TimerIds.EveryTimerIsAdded` | src/brickred/timer_heap.cc:19-27 | fewer than 2^63 timers added to a new heap are all added, whatever is removed or fires in between; their ids are 1, 2, 3 and so on |
| `TimerIds.AddFailsOnlyAfterWrap` | src/brickred/timer_heap.cc:132-158 | an addition returns -1 exactly if the id whose turn it is is in use, and that takes at least 2^63 - 1 additions before it |
| `TimerIds.DueAfterDelay` | src/brickred/timer_heap.cc:132-158 | an added timer is due exactly from the asked delay on, in whole milliseconds, and has the asked number of calls |
| `TimerRuns.DueTimesAreMoments` | src/brickred/timer_heap.cc:177-211 | a timer fires a k-th time exactly if k periods after its first moment it is due and a call is left |
| `TimerRuns.LeftOfTimer` | src/brickred/timer_heap.cc:195-206 | after a check a timer is gone exactly if its calls are used up; otherwise it is that many periods further and has that many calls fewer |
| `TimerHeaps.TimerHeap.RemoveTimer` | src/brickred/timer_heap.cc:160-175 | exactly the entry of that id goes |
| `TimerHeaps.TimerHeap.Fire` | src/brickred/timer_heap.cc:189-206 | a last call removes the timer; otherwise it moves on by its period, one call fewer if calls are counted |
| `TimerHeaps.TimerHeap.GetNextTimeoutMillisecond` | src/brickred/timer_heap.cc:118-130 | -1 exactly if there are no timers; otherwise some timer is due d milliseconds later exactly for d at least the result |
| `TimerHeaps.TimerHeap.CheckTimeout` | src/brickred/timer_heap.cc:177-211 | terminates, whatever timers are not due yet; each timer fires exactly as often as its schedule says, at its successive moments and in time order; nothing due is left, and something fires exactly if something was due |
| `TimerRuns.FiredOnce` | src/brickred/timer_heap.cc:189-206 | firing a due timer brings the table nearer to its final state |
| `TimerRuns.RunIsOver` | src/brickred/timer_heap.cc:177-211 | with nothing due, a timer due at t with period p has fired floor((now-t)/p)+1 times, capped by its calls |
| `TimerRuns.AdvancedOnce` | src/brickred/timer_heap.cc:195-206 | n firings and one more are n + 1 firings |
| `TimerRuns.DivisionCounts` | src/brickred/timer_heap.cc:177-211 | the count of due moments is a division |
| `TimerRuns.FiringIsProgress` | src/brickred/timer_heap.cc:177-211 | a firing of a due timer keeps the table on its way from the start to the end of the run and brings the end nearer |
| `TimerRuns.LeftDecreases` | src/brickred/timer_heap.cc:177-211 | each firing brings the end of the loop nearer by one: the termination measure |
| `DynamicBuffers.IntegerRoundTrip` | src/brickred/dynamic_buffer.cc:156-260 | what is written as an integer is read back, in either byte order |
| `Bytes.EndianRoundTrip` | src/brickred/dynamic_buffer.cc:156-260 | big-endian bytes give back their number |
| `Bytes.BytesRoundTrip` | src/brickred/dynamic_buffer.cc:370-432 | and numbers their big-endian bytes |
| `Bytes.OrdersMirror` | src/brickred/dynamic_buffer.cc:370-432 | the two byte orders are mirror images |
| `DynamicBuffers.DynamicBuffer.constructor` | src/brickred/dynamic_buffer.cc:8-18 | an empty buffer of exactly the asked size, or of one expand step if that is 0; a step of 0 counts as 1 |
| `DynamicBuffers.DynamicBuffer.Swap` | src/brickred/dynamic_buffer.cc:24-30 | contents, free room in front and expand steps change places |
| `DynamicBuffers.DynamicBuffer.Read` | src/brickred/dynamic_buffer.cc:62-69 | drops bytes from the front, at most all |
| `DynamicBuffers.DynamicBuffer.Write` | src/brickred/dynamic_buffer.cc:71-74 | takes in the bytes placed behind the contents, at most those there is room for |
| `DynamicBuffers.DynamicBuffer.ReserveWritableBytes` | src/brickred/dynamic_buffer.cc:76-100 | the contents stay; there is room; the array is kept if compaction is enough, and otherwise is a new one, larger by missing / step + 1 expand steps |
| `DynamicBuffers.DynamicBuffer.Clear` | src/brickred/dynamic_buffer.cc:102-106 | nothing is left |
| `DynamicBuffers.DynamicBuffer.PeekInt8` | src/brickred/dynamic_buffer.cc:108-118 | the byte at an offset, if it is there |
| `DynamicBuffers.DynamicBuffer.PeekInt16` | src/brickred/dynamic_buffer.cc:156-172 | the number two bytes stand for, if they are there |
| `DynamicBuffers.DynamicBuffer.PeekInt32` | src/brickred/dynamic_buffer.cc:198-218 | the number four bytes stand for |
| `DynamicBuffers.DynamicBuffer.PeekInt64` | src/brickred/dynamic_buffer.cc:232-260 | the number eight bytes stand for |
| `DynamicBuffers.DynamicBuffer.WriteInt8` | src/brickred/dynamic_buffer.cc:362-368 | one byte more behind the contents |
| `DynamicBuffers.DynamicBuffer.WriteInt16` | src/brickred/dynamic_buffer.cc:370-384 | two bytes more, in the asked order |
| `DynamicBuffers.DynamicBuffer.WriteInt32` | src/brickred/dynamic_buffer.cc:386-404 | four bytes more |
| `DynamicBuffers.DynamicBuffer.WriteInt64` | src/brickred/dynamic_buffer.cc:406-432 | eight bytes more |
| `DynamicBuffers.DynamicBuffer.ReadBytes` | src/brickred/dynamic_buffer.cc:434-445 | bytes move from the front of the queue to a block, the rest of which stays |
| `DynamicBuffers.DynamicBuffer.WriteBytes` | src/brickred/dynamic_buffer.cc:447-452 | bytes go to the end of the queue |
| `WebSocketFrames.MaskedTwice` | src/brickred/protocol/web_socket_protocol.cc:474-479 | masking twice with one key gives back the payload |
| `WebSocketFrames.ParseIsStable` | src/brickred/protocol/web_socket_protocol.cc:362-484 | a verdict on a prefix is the verdict on the whole: only "need more" can change |
| `WebSocketFrames.FrameRoundTrip` | src/brickred/protocol/web_socket_protocol.cc:393-486 | what one role encodes the other decodes, for every payload, key and length form, leaving exactly what follows |
| `WebSocketFrames.PrefixNeedsMore` | src/brickred/protocol/web_socket_protocol.cc:364-470 | no proper prefix of a frame is taken for a frame or for an error |
| `WebSocketFrames.AcceptedIsEncoded` | src/brickred/protocol/web_socket_protocol.cc:362-484 | only encodings are accepted: minimal length, right masking, no reserved bit |
| `WebSocketMachine.ReadFrame` | src/brickred/protocol/web_socket_protocol.cc:362-552 | an incomplete frame changes nothing, a decoded one takes at least two bytes, and a failure tells a malformed frame from a refused one: bytes left, message and control payload |
| `WebSocketMachine.RecvMessage` | src/brickred/protocol/web_socket_protocol.cc:181-211 | every result other than waiting and error takes at least two bytes |
| `WebSocketRuns.DrainIsFrameByFrame` | src/brickred/protocol/web_socket_protocol.cc:181-211 | receiving until something happens, retrieving and going on is the same as frame after frame |
| `WebSocketRuns.TwoSegments` | src/brickred/protocol/web_socket_protocol.cc:362-552 | draining after each of two segments is draining once after both: events, state, output and bytes left |
| `WebSocketRuns.SegmentationIsInvisible` | src/brickred/protocol/web_socket_protocol.cc:181-211 | draining after each of any number of segments is draining the joined bytes once: events, final state, output and bytes left |
| `WebSocketRuns.DrainedIsDrained` | src/brickred/protocol/web_socket_protocol.cc:181-211 | what a drain leaves holds nothing to be drained |
| `WebSocketRuns.RetrieveOnce` | src/brickred/protocol/web_socket_protocol.cc:554-566 | a message is handed out exactly when one is finished, once; a refused call keeps everything, also the fragments read so far |
| `WebSocketRuns.PollingIsHarmless` | src/brickred/protocol/web_socket_protocol.cc:554-566 | a caller who asks for a message after every receive, ready or not, is told the same events and leaves the same endpoint |
| `WebSocketExamples.UnmaskedHello` | src/brickred/protocol/web_socket_protocol.cc:568-628 | the unmasked examples of section 5.7 of RFC 6455, byte by byte: a text, its two fragments, a ping |
| `WebSocketExamples.MaskedHello` | src/brickred/protocol/web_socket_protocol.cc:601-628 | the masked examples: a text and the pong for a ping |
| `WebSocketExamples.LongMessages` | src/brickred/protocol/web_socket_protocol.cc:584-599 | the headers of binary messages of 256 bytes and of 64 KiB |
| `WebSocketExamples.XorByBits` | src/brickred/protocol/web_socket_protocol.cc:474-479 | the exclusive or of two bytes is that of their bits |
| `WebSocketTheory.TakeEffect` | src/brickred/protocol/web_socket_protocol.cc:488-552 | a frame is refused exactly if it does not fit the fragments before it or has a reserved opcode; otherwise its effect on message, status and fragments |
| `WebSocketTheory.FailureConsumes` | src/brickred/protocol/web_socket_protocol.cc:362-552 | a failure leaves all bytes unread exactly if they begin with no frame; otherwise the refused frame is gone and its payload is in the buffer of its kind |
| `WebSocketTheory.RefusedFrameStays` | src/brickred/protocol/web_socket_protocol.cc:488-552 | a concrete frame whose payload stays though it is refused: a continuation of nothing |
| `WebSocketTheory.MessagesAreAssembled` | src/brickred/protocol/web_socket_protocol.cc:459-525 | over any stream the delivered messages are the data payloads joined up to each final frame, whatever control frames come between; the message under way is the rest |
| `WebSocketTheory.ReadingKeepsInv` | src/brickred/protocol/web_socket_protocol.cc:488-552 | one frame keeps the invariant of an endpoint |
| `WebSocketTheory.EveryRunKeepsInv` | src/brickred/protocol/web_socket_protocol.cc:554-714 | over every run the message under way is empty between messages and within the limit, control payloads are consumed, and a close frame is the last thing sent and the only one |
| `WebSocketTheory.EndsAreAbsorbing` | src/brickred/protocol/web_socket_protocol.cc:181-211 | nothing leads out of closed or pending error, or changes anything there |
| `WebSocketTheory.MessageRoundTrip` | src/brickred/protocol/web_socket_protocol.cc:568-628 | a sent message is received as it is, with what follows unread, exactly if it fits the limit, its length is below 2^63 and the receiver is between messages; otherwise the receiver is in error |
| `WebSocketTheory.TooLongIsMalformed` | src/brickred/protocol/web_socket_protocol.cc:428-432 | a message over the limit is refused as soon as its length is known |
| `WebSocketTheory.EveryRunSendsFrames` | src/brickred/protocol/web_socket_protocol.cc:568-714 | every block an endpoint ever puts out is one whole frame the other role can read |
| `WebSocketTheory.RepliesAreSent` | src/brickred/protocol/web_socket_protocol.cc:528-541 | a ping is answered with its own payload and a close frame with a close frame, unless one was sent before; nothing else is answered |
| `WebSocketTheory.CallsAreSent` | src/brickred/protocol/web_socket_protocol.cc:568-674 | an endpoint that may send puts out exactly the frame it is asked for |
| `WebSocketTheory.PeerHearsAll` | src/brickred/protocol/web_socket_protocol.cc:568-714 | a peer draining such blocks is told all of them in order, up to a close frame |
| `WebSocketTheory.Conversation` | src/brickred/protocol/web_socket_protocol.cc:181-211 | two fresh endpoints of opposite roles: over any run of the one, the other is told exactly what was sent, however the bytes are cut |
| `WebSockets.MaskAhead` | src/brickred/protocol/web_socket_protocol.cc:474-479 | masking in place behind the contents of a buffer |
| `WebSockets.ReadLength` | src/brickred/protocol/web_socket_protocol.cc:386-426 | the length field read from a buffer is the parsed one |
| `WebSockets.WriteLength` | src/brickred/protocol/web_socket_protocol.cc:584-599 | the length field written in its shortest form |
| `WebSockets.WebSocketProtocol.constructor` | src/brickred/protocol/web_socket_protocol.cc:92-99 | an endpoint as it is once the handshake is over |
| `WebSockets.WebSocketProtocol.SendMessage` | src/brickred/protocol/web_socket_protocol.cc:568-628 | the object sends as the machine does and keeps its invariant |
| `WebSockets.WebSocketProtocol.SendCloseFrame` | src/brickred/protocol/web_socket_protocol.cc:630-652 | a close frame goes out exactly if connected and none has been sent; the invariant survives |
| `WebSockets.WebSocketProtocol.SendPingFrame` | src/brickred/protocol/web_socket_protocol.cc:654-674 | a ping goes out exactly if connected and no close frame has been sent |
| `WebSockets.WebSocketProtocol.SendPongFrame` | src/brickred/protocol/web_socket_protocol.cc:676-714 | a pong carries the payload of its ping, masked by a client; the block of fixed size it is built in is never overrun |
| `WebSockets.WebSocketProtocol.ReadHeader` | src/brickred/protocol/web_socket_protocol.cc:364-432 | the checks made before the mask key, in their order |
| `WebSockets.WebSocketProtocol.TakePayload` | src/brickred/protocol/web_socket_protocol.cc:434-486 | a payload moves, unmasked, to the buffer of its kind, or nothing changes |
| `WebSockets.WebSocketProtocol.ProcessFrame` | src/brickred/protocol/web_socket_protocol.cc:488-552 | fragments and control frames in place, as the machine has it |
| `WebSockets.WebSocketProtocol.ReadFrame` | src/brickred/protocol/web_socket_protocol.cc:362-552 | the object reads a frame as the machine does |
| `WebSockets.WebSocketProtocol.RecvMessage` | src/brickred/protocol/web_socket_protocol.cc:181-211 | the loop over buffers is the machine's, and terminates |
| `WebSockets.WebSocketProtocol.RetrieveMessage` | src/brickred/protocol/web_socket_protocol.cc:554-566 | the message is handed over by exchanging buffers |
| `MersenneTwister.TemperIsInjective` | src/brickred/codec/mt19937.cc:160-168 | tempering loses nothing: different words give different outputs |
| `WordBits.MixRightIsInjective` | src/brickred/codec/mt19937.cc:163-166 | x xor (x >> n) determines x |
| `WordBits.MixLeftIsInjective` | src/brickred/codec/mt19937.cc:164-165 | x xor ((x << n) and mask) determines x |
| `Words.ShiftsAreScaling` | src/brickred/codec/mt19937.cc:163-166 | shifts are division and multiplication by powers of two, modulo 2^32 |
| `Mt19937Example.OutputsOfUsualSeed` | src/brickred/codec/mt19937.cc:88-95 | the first two numbers after the seed 5489 are the published 3499211612 and 581869302 |
| `Mt19937Example.OutputOfAuthorsKey` | src/brickred/codec/mt19937.cc:97-134 | the first number after the key 0x123, 0x234, 0x345, 0x456 of the authors' example is the published 1067595299 |
| `KeySeeding.KeySeededAt` | src/brickred/codec/mt19937.cc:97-134 | what both passes over a key leave in every place, word by word |
| `KeySeeding.FirstPassIsLongEnough` | src/brickred/codec/mt19937.cc:97-121 | the first pass uses every word of the key and comes by every place, however long the key is |
| `Mt19937Machine.TemperIsMachine` | src/brickred/codec/mt19937.cc:160-168 | tempering on numbers is tempering on 32-bit machine words |
| `Mt19937Machine.TwistIsMachine` | src/brickred/codec/mt19937.cc:146-158 | and so is the step of the recurrence |
| `MachineWords.XorIsMachine` | src/brickred/codec/mt19937.cc:163-166 | exclusive or of numbers, defined bit by bit, is that of 32-bit machine words |
| `MachineWords.AddIsMachine` | src/brickred/codec/mt19937.cc:88-95 | addition modulo 2^32 is the machine's |
| `MachineWords.MulIsMachine` | src/brickred/codec/mt19937.cc:88-95 | multiplication modulo 2^32 is the machine's |
| `MachineWords.ShiftsAreMachine` | src/brickred/codec/mt19937.cc:163-166 | shifts, place by place, are the machine's |
| `MachineWords.ValueIsBitSum` | src/brickred/codec/mt19937.cc:163-166 | the number a machine word stands for is the sum of the powers of two of its bits |
| `Mt19937s.Mt19937.constructor` | src/brickred/codec/mt19937.cc:74-77 | seeded with one word |
| `Mt19937s.Mt19937.ByKey` | src/brickred/codec/mt19937.cc:79-82 | seeded with a key |
| `Mt19937s.Mt19937.Seed` | src/brickred/codec/mt19937.cc:88-95 | the array holds the seeded words; nothing has been drawn |
| `Mt19937s.Mt19937.SeedByKey` | src/brickred/codec/mt19937.cc:97-134 | both loops, with indices that wrap, leave the words of the closed form: its step t works on place 1 + t mod 623 with key word t mod the key's length; the first word ends as 2^31 |
| `Mt19937s.WordMade` | src/brickred/codec/mt19937.cc:142-155 | a new word can be made from an array half overwritten: which neighbour is old and which new |
| `Mt19937s.Mt19937.Regenerate` | src/brickred/codec/mt19937.cc:142-158 | the block made in place is the next 624 words of the sequence |
| `Mt19937s.Mt19937.NextInt` | src/brickred/codec/mt19937.cc:136-169 | the k-th call after seeding gives the tempered word 624 + k of the recurrence, whose published values are proved of it |
| `Mt19937s.Mt19937.NextIntBelow` | src/brickred/codec/mt19937.cc:171-189 | the first word kept, reduced, with everything before it thrown away |
| `Mt19937s.Mt19937.DrawKept` | src/brickred/codec/mt19937.cc:182-186 | words are drawn until one is kept: the first that is not below the threshold |
| `Mt19937s.Mt19937.NextIntBetween` | src/brickred/codec/mt19937.cc:191-202 | a result from min to max without overflow, from the first word kept |
| `BoundedDraws.ThresholdIsRemainder` | src/brickred/codec/mt19937.cc:177-181 | (-max) % max on 32 bits is 2^32 mod max |
| `BoundedDraws.DrawsAreUniform` | src/brickred/codec/mt19937.cc:171-189 | each result stands for exactly floor(2^32 / max) of the words that are kept |
| `BoundedDraws.RangeDrawsAreUniform` | src/brickred/codec/mt19937.cc:191-202 | each number from min to max stands for exactly as many of the words that are kept |
| `BoundedDraws.BetweenIsRemainder` | src/brickred/codec/mt19937.cc:191-202 | a word gives the number of the range that lies its remainder, by the size of the range, above the least |
| `BoundedDraws.MostAreKept` | src/brickred/codec/mt19937.cc:181-188 | more than half of all words are kept |
| `QueueMonitor.EnqueueKeeps` | src/brickred/concurrent_queue.h:54-62 | a push of an item wakes a sleeping consumer for it, so that no wakeup is lost |
| `QueueMonitor.DequeueKeeps` | src/brickred/concurrent_queue.h:75-85 | a pop of an item wakes a sleeping producer for its slot |
| `QueueMonitor.StepKeepsInv` | src/brickred/concurrent_queue.h:54-98 | every stretch under the mutex, and every spurious wakeup, keeps order, bound and both wakeup conditions |
| `QueueMonitor.EveryQueueIsSafe` | src/brickred/concurrent_queue.h:54-98 | for any number of threads and any scheduling: first in first out, never over the bound, and while a consumer sleeps there are as many woken consumers as items, and so for producers and free slots |
| `QueueMonitor.StepKeepsItems` | src/brickred/concurrent_queue.h:54-62 | a producer that waits has the item it was called with, whatever step is made by whom |
| `QueueMonitor.WaitersHoldTheirItems` | src/brickred/concurrent_queue.h:54-62 | over every run each waiting producer holds the item of its own last call |
| `QueueMonitor.EveryoneIsServed` | src/brickred/concurrent_queue.h:54-98 | over every run a push or a resumed push that gets through appends exactly the item that thread asked to push, and a pop takes exactly the oldest |
| `QueueMonitor.BlockedItemIsPushed` | src/brickred/concurrent_queue.h:54-62 | a push that blocked and gets through after any number of other steps appends exactly its own item |
| `QueueMonitor.NobodySleepsForNothing` | src/brickred/concurrent_queue.h:54-85 | with nobody woken, a consumer sleeps only on an empty queue and a producer only on a full one |
| `QueueMonitor.WaitingConsumerIsServed` | src/brickred/concurrent_queue.h:75-85 | a consumer asleep beside an item means that a consumer can take it now |
| `QueueMonitor.WaitingProducerIsServed` | src/brickred/concurrent_queue.h:54-62 | a producer asleep beside a free slot means that a producer can fill it now |
| `QueueMonitor.ConcurrentQueue.Push` | src/brickred/concurrent_queue.h:54-62 | the call up to its return, with its item behind the others, or its wait, with its item kept, exactly as the queue is full or not |
| `QueueMonitor.ConcurrentQueue.ResumePush` | src/brickred/concurrent_queue.h:57-62 | the return from the wait: the test is made again, and the item pushed or kept is the thread's own |
| `QueueMonitor.ConcurrentQueue.PushIfNotFull` | src/brickred/concurrent_queue.h:64-73 | an item goes in exactly if the queue is not full |
| `QueueMonitor.ConcurrentQueue.Pop` | src/brickred/concurrent_queue.h:75-85 | the call up to its return, with the oldest item, or its wait |
| `QueueMonitor.ConcurrentQueue.ResumePop` | src/brickred/concurrent_queue.h:78-84 | the return from the wait |
| `QueueMonitor.ConcurrentQueue.PopIfNotEmpty` | src/brickred/concurrent_queue.h:87-98 | the oldest item, exactly if there is one |
| `TcpMachine.SendDirectKeeps` | src/brickred/tcp_service.cc:818-861 | handing a message to the socket at once keeps the invariant, for every part the socket may take |
| `TcpMachine.SendBehindKeeps` | src/brickred/tcp_service.cc:862-879 | buffering a message behind others keeps the invariant; one over the limit fails as a whole |
| `TcpMachine.WritableKeeps` | src/brickred/tcp_service.cc:610-646 | a write callback keeps the invariant, for every part the socket may take |
| `TcpMachine.EventKeepsInv` | src/brickred/tcp_service.cc:477-882 | every event of a connection keeps the invariant |
| `TcpMachine.EveryRunKeepsInv` | src/brickred/tcp_service.cc:477-882 | bytes taken by the socket and bytes buffered are the accepted messages joined, followed by at most the start of the one that failed; write interest is set exactly while something is buffered; send-complete is called only with nothing unsent |
| `TcpMachine.FailureIsFinal` | src/brickred/tcp_service.cc:807-882 | once a connection that is not still being made is not connected, over any run nothing is accepted and what may still reach the socket is fixed |
| `TcpMachine.NeverConnectedAgain` | src/brickred/tcp_service.cc:477-882 | a connection that is not connected stays so over every run exactly if it is not still being made |
| `TcpMachine.AttemptCanSucceed` | src/brickred/tcp_service.cc:477-508 | as long as it is being made, failed or not, one event can make it connected |
| `TcpMachine.SendIsAcceptedOrFails` | src/brickred/tcp_service.cc:807-882 | a connected socket accepts a message exactly if it gives no error and what is left to buffer fits the limit; then all of it goes behind the bytes there are, and otherwise the connection fails with the error told and the bytes stay |
| `TcpMachine.SendKeepsItsCallback` | src/brickred/tcp_service.cc:829-879 | the callback of an accepted message is called at once if nothing is left to buffer, and takes the place of the pending one otherwise |
| `TcpMachine.WriteHandsOver` | src/brickred/tcp_service.cc:610-646 | a write callback hands over exactly the bytes the socket takes, from the front; a failure keeps them all |
| `TcpMachine.EveryByteTakenIsSent` | src/brickred/tcp_service.cc:610-882 | over every run the bytes recorded as sent are as many as the socket took |
| `TcpMachine.EverythingIsAccepted` | src/brickred/tcp_service.cc:807-882 | without a limit and without errors every message is accepted over every run, and sent and buffered bytes are all messages joined |
| `TcpMachine.StatusTellsLastTrouble` | src/brickred/tcp_service.cc:539-882 | over every run of an established connection its status and error tell the last thing that went wrong: nothing, the end of the stream, or the error with its number |
| `TcpMachine.AttemptEnds` | src/brickred/tcp_service.cc:477-537 | an attempt ends connected or with the error told; running out of time is ETIMEDOUT |
| `TcpMachine.FullWriteCompletes` | src/brickred/tcp_service.cc:634-645 | a write that takes everything ends the interest and calls exactly the pending callback, once, with nothing unsent |
| `TcpMachine.DirectSendCompletes` | src/brickred/tcp_service.cc:818-861 | a message taken whole is complete at once and its own callback is called |
| `TcpMachine.TimeoutIsNotFinal` | src/brickred/tcp_service.cc:510-537 | every connection still being made can run into its limit and be connected afterwards |
| `TcpServices.TcpConnection.Send` | src/brickred/tcp_service.cc:807-882 | the connection sends as the machine does, accepting exactly what it accepts; the error timer is asked for exactly if a connected one refuses |
| `TcpServices.TcpConnection.OnWritable` | src/brickred/tcp_service.cc:610-646 | the write callback as the machine has it |
| `TcpServices.TcpService.AddSocketTimer` | src/brickred/tcp_service.cc:384-390 | a one-shot timer in both maps; they stay each other's inverse exactly if the socket had none before |
| `TcpServices.TcpService.RemoveSocketTimer` | src/brickred/tcp_service.cc:392-404 | exactly the timer of that socket goes |
| `TcpServices.TcpService.SendMessage` | src/brickred/tcp_service.cc:785-796 | one connection sends, the others stay; an unknown id is refused and a connected one accepts exactly what fits; an error timer starts exactly if a connected one refuses |
| `TcpServices.TcpService.BroadcastMessage` | src/brickred/tcp_service.cc:798-805 | every connection sends exactly once, whatever order the map is walked in, and the map does not change meanwhile |
| `TcpServices.TcpService.OnSocketWrite` | src/brickred/tcp_service.cc:610-646 | one connection writes; an error is reported at once |
| `TcpServices.TcpService.OnSendMessageError` | src/brickred/tcp_service.cc:884-910 | a failed send is reported by its timer exactly once |
| `TcpServices.TcpService.OnSocketRead` | src/brickred/tcp_service.cc:539-608 | the end of the stream or an error is taken over from the socket and told once; the other connections stay |
| `TcpServices.TcpService.OnSocketError` | src/brickred/tcp_service.cc:648-669 | an error of the socket is taken over and reported once |
| `TcpServices.TcpService.BuildListenSocket` | src/brickred/tcp_service.cc:248-278 | a listening socket is entered; an id in use is refused |
| `TcpServices.TcpService.SetContext` | src/brickred/tcp_service.cc:962-984 | a context is stored exactly for a socket there is |
| `TcpServices.TcpService.CloseSocket` | src/brickred/tcp_service.cc:925-949 | socket, connection, context and timer go, those of the others stay |
| `TcpServices.TcpService.BuildConnection` | src/brickred/tcp_service.cc:280-382 | a new connection, with a timer exactly if it is still to be made and a limit is set; an id in use is refused |
| `TcpServices.TcpService.OnAsyncConnectSocketWrite` | src/brickred/tcp_service.cc:477-508 | connecting ends and its timer stops; an error is reported at once, and nothing else is |
| `TcpServices.TcpService.OnAsyncConnectTimeout` | src/brickred/tcp_service.cc:510-537 | the limit runs out: an error, reported once |
| `Blocks.FoldedInParts` | src/brickred/codec/sha256.cc:135-140 | folding over whole blocks can be interrupted anywhere between blocks |
| `Blocks.RestIsIgnored` | src/brickred/codec/sha256.cc:142-145 | what does not fill a block is kept for later |
| `Sha256Spec.RoundConstantsAreRoots` | src/brickred/codec/sha256.cc:34-51 | each round constant is the fractional part of the cube root of the corresponding prime (section 4.2.2 of FIPS 180-4) |
| `Primes.PrimesAreListed` | src/brickred/codec/sha256.cc:34-51 | up to 311 the list of primes used for that has exactly the numbers without a divisor |
| `Primes.PrimesAscend` | src/brickred/codec/sha256.cc:34-51 | in order: the t-th of the list is the t-th prime |
| `Sha256Spec.FirstHashIsRoots` | src/brickred/codec/sha256.cc:19-30 | the first hash value is made of square roots (section 5.3.3) |
| `Sha256Spec.PaddingIsLeast` | src/brickred/codec/sha256.cc:148-172 | the padding fills the last block with the fewest zeros (section 5.1.1) |
| `Sha256s.AssembledIsBigEndian` | src/brickred/codec/sha256.cc:72-78 | four bytes shifted and joined are their big-endian number |
| `Sha256Example.DigestOfAbc` | src/brickred/codec/sha256.cc:32-180 | the digest of the three bytes "abc" is the published one |
| `Sha256Bits.BigSigma0Bit` | src/brickred/codec/sha256.cc:53-57 | bit i of the function is the exclusive or of bits i + 2, i + 13 and i + 22, round the word (section 4.1.2) |
| `Sha256Bits.BigSigma1Bit` | src/brickred/codec/sha256.cc:53-58 | and so for 6, 11 and 25 |
| `Sha256Bits.SmallSigma0Bit` | src/brickred/codec/sha256.cc:53-59 | 7, 18 and, not round the word, 3 |
| `Sha256Bits.SmallSigma1Bit` | src/brickred/codec/sha256.cc:53-60 | 17, 19 and, not round the word, 10 |
| `Sha256Bits.ChBit` | src/brickred/codec/sha256.cc:55-55 | each bit is chosen from the second or the third word by the first |
| `Sha256Bits.MajBit` | src/brickred/codec/sha256.cc:56-56 | each bit is the majority of the three |
| `Sha256Machine.RoundIsMachine` | src/brickred/codec/sha256.cc:83-94 | a round on numbers is the round on 32-bit machine words |
| `Sha256Machine.ExpandedIsMachine` | src/brickred/codec/sha256.cc:79-81 | and so is a step of the message schedule |
| `Sha256s.Sha256.constructor` | src/brickred/codec/sha256.cc:10-13 | nothing fed yet |
| `Sha256s.Sha256.Reset` | src/brickred/codec/sha256.cc:19-30 | the first hash value again, nothing fed |
| `Sha256s.Sha256.Schedule` | src/brickred/codec/sha256.cc:72-81 | the message schedule of section 6.2.2 |
| `Sha256s.Sha256.ProcessBlock` | src/brickred/codec/sha256.cc:32-113 | the rounds in local variables are the block function of section 6.2.2, whose bits and whose published example are proved of it |
| `Sha256s.Sha256.FillUp` | src/brickred/codec/sha256.cc:117-133 | a block begun is filled up and processed when full |
| `Sha256s.Sha256.ProcessWhole` | src/brickred/codec/sha256.cc:135-145 | full blocks are processed, the rest kept |
| `Sha256s.Sha256.Update` | src/brickred/codec/sha256.cc:115-146 | however the input is cut, the state depends on all of it joined only |
| `Sha256s.Sha256.Digest` | src/brickred/codec/sha256.cc:148-180 | the hash of everything fed: the fold over the padded input |
| `Sha256s.Sha256InParts` | src/brickred/codec/sha256.cc:115-180 | any sequence of updates and then a digest: the hash of the parts joined |
| `Sha256s.Sha256Binary` | src/brickred/codec/sha256.cc:215-224 | one call for a whole message |
| `Base64.AlphabetIsOneToOne` | src/brickred/codec/base64.cc:8-20 | letters and values determine each other |
| `Base64Laws.LettersAreTheAlphabet` | src/brickred/codec/base64.cc:8-10 | the letters are those of table 1 of RFC 4648, in its order, and padding is the equals sign |
| `Base64Laws.GroupIsNumber` | src/brickred/codec/base64.cc:29-66 | the letters of up to three bytes are the base-64 digits of the number they are, filled up with padding |
| `Base64Laws.EncodeIsBase64` | src/brickred/codec/base64.cc:22-69 | so is every letter of every encoding |
| `Base64Laws.PublishedVectors` | src/brickred/codec/base64.cc:71-89 | the test vectors of section 10 of RFC 4648 |
| `Base64.Encode` | src/brickred/codec/base64.cc:22-69 | the length is four letters for every three bytes begun |
| `Base64.DecodeUndoesEncode` | src/brickred/codec/base64.cc:91-170 | what is encoded is decoded to itself |
| `Base64.EncodeUndoesDecode` | src/brickred/codec/base64.cc:134-151 | and only encodings are accepted: one spelling for each value |
| `Base64.Base64Encode` | src/brickred/codec/base64.cc:22-69 | the encoding and its length narrowed to int, or -1 if the buffer is too small; nothing behind it is touched |
| `Base64.Base64Decode` | src/brickred/codec/base64.cc:91-170 | the decoded bytes and their number narrowed to int, or -1 if the text is no encoding or the buffer is too small |
| `Base64.EncodeString` | src/brickred/codec/base64.cc:76-89 | the buffer made for it always holds the encoding, which is handed out whole exactly if it has fewer than 2^31 letters |
| `Base64.DecodeString` | src/brickred/codec/base64.cc:177-193 | what is decoded, whole exactly below 2^31 bytes; a text that is no encoding gives nothing |
| `HttpText.FindIsFirst` | src/brickred/string_util.cc:194-209 | a keyword is found exactly where it occurs first |
| `HttpText.FindIsStable` | src/brickred/string_util.cc:194-209 | more text behind does not change a find |
| `HttpText.SplitFront` | src/brickred/string_util.cc:40-69 | the first part ends at the first separator |
| `HttpText.AtoiOfDecimal` | src/brickred/protocol/http_protocol.cc:169-172 | what is printed in decimal is read back exactly if an int holds it; otherwise saturated to a long and narrowed |
| `HttpText.SetThenGet` | src/brickred/protocol/http_message.cc:32-68 | setting a field is what asking for it then gives, ignoring case; every other field keeps its value, no key is lost and the keys stay in order |
| `HttpMachine.StartLineIsStable` | src/brickred/protocol/http_protocol.cc:132-213 | the start-line handler decides the same with more bytes behind, limits included |
| `HttpMachine.HeaderIsStable` | src/brickred/protocol/http_protocol.cc:215-265 | the header handler decides the same with more bytes behind, limits included |
| `HttpMachine.BodyIsStable` | src/brickred/protocol/http_protocol.cc:267-292 | the body handler decides the same with more bytes behind |
| `HttpMachine.TwoSegments` | src/brickred/protocol/http_protocol.cc:105-130 | receiving in two steps is receiving at once, for right and wrong input |
| `HttpMachine.SegmentationIsInvisible` | src/brickred/protocol/http_protocol.cc:105-130 | receiving segment by segment is receiving the joined bytes at once: result, message and bytes left |
| `HttpTheory.StartLineRoundTrip` | src/brickred/protocol/http_protocol.cc:151-212 | a printed start line is read back |
| `HttpTheory.BlankLineFound` | src/brickred/protocol/http_protocol.cc:227-240 | the end of the fields is found behind the last field and not before |
| `HttpTheory.FieldsRoundTrip` | src/brickred/protocol/http_protocol.cc:242-256 | printed fields are read back in their order |
| `HttpTheory.BodyIsRead` | src/brickred/protocol/http_protocol.cc:267-292 | a body is read exactly if what the code reads from Content-Length is its length, and it is not too long; never as the same message otherwise |
| `HttpTheory.LengthTold` | src/brickred/protocol/http_protocol.cc:269-276 | a length told in decimal: the true one is taken for itself exactly below 2^31, and 2^32 is taken for an empty body |
| `HttpTheory.MessageRoundTrip` | src/brickred/protocol/http_protocol.cc:499-558 | for a sound start line and sound fields within the limits: the written message is read as the same one, with what follows unread, exactly if what the code reads from Content-Length, saturated and narrowed, is the body's length within the limit (or there are neither fields nor body) |
| `HttpTheory.AnySegmentation` | src/brickred/protocol/http_protocol.cc:105-130 | a written message comes through however its bytes are cut into segments, and what follows stays unread |
| `HttpStreams.DrainInTwo` | src/brickred/protocol/http_protocol.cc:105-130 | receiving and retrieving until nothing more comes, after each of two segments or once after both: the same messages, state and bytes left |
| `HttpStreams.SegmentationIsInvisible` | src/brickred/protocol/http_protocol.cc:105-130 | the same for any number of segments, for right and wrong input |
| `HttpStreams.StreamRoundTrip` | src/brickred/protocol/http_protocol.cc:365-399 | any number of written messages are read one after the other as the same ones exactly if each comes through, and the reader then goes on with what follows |
| `HttpStreams.StreamOverSegments` | src/brickred/protocol/http_protocol.cc:105-130 | and so however their bytes are cut into segments |
| `HttpTheory.NoLengthIsRefused` | src/brickred/protocol/http_protocol.cc:360-362 | fields that tell neither a length nor chunks: the message is written but refused |
| `HttpTheory.SomeMessageIsRefused` | src/brickred/protocol/http_protocol.cc:360-362 | a concrete message that is written but refused: GET / with one field other than a length |
| `HttpLaws.WordsOfTheProtocol` | src/brickred/protocol/http_protocol.cc:136-294 | methods, versions, field names, separators and line ends are those of the standard, as text |
| `HttpLaws.WrittenAsText` | src/brickred/protocol/http_protocol.cc:499-558 | a message is written as start line, field lines, blank line and body, every word and separator told as text |
| `HttpLaws.LoweringIsTheLatinOne` | src/brickred/string_util.cc:100-102 | lowering takes each capital letter to its small one and leaves everything else |
| `HttpLaws.SameKeyIgnoresCase` | src/brickred/string_util.cc:238-257 | two keys are the same exactly if they are equal but for case |
| `HttpLaws.AnySpellingIsFound` | src/brickred/protocol/http_message.cc:32-46 | a field is found under every spelling of its key |
| `HttpLaws.TrimTakesBlanks` | src/brickred/string_util.cc:71-94 | trimming takes blanks and tabs off both ends, all of them and nothing else |
| `HttpLaws.NumeralIsBaseTen` | src/brickred/protocol/http_protocol.cc:523-530 | a printed number has the digits of base 10 |
| `HttpLaws.NumeralIsShort` | src/brickred/protocol/http_protocol.cc:523-530 | and no leading zero |
| `HttpLaws.NumberIsRead` | src/brickred/protocol/http_protocol.cc:169-172 | a number is read behind any white space, with or without a sign, up to the first byte that is no digit |
| `HttpLaws.AcceptedStartLine` | src/brickred/protocol/http_protocol.cc:151-212 | only printed request lines are taken for requests, and only a version, a positive number and a reason for a response |
| `HttpLaws.EndlessStartLineIsRefused` | src/brickred/protocol/http_protocol.cc:134-143 | a start line that has not ended is waited for up to the limit and refused beyond it |
| `HttpLaws.LongStartLineIsRefused` | src/brickred/protocol/http_protocol.cc:145-149 | a start line over its limit is refused, whatever follows |
| `HttpLaws.LongFieldsAreRefused` | src/brickred/protocol/http_protocol.cc:236-240 | so are fields over theirs |
| `HttpLaws.ExactlyWhatComesThrough` | src/brickred/protocol/http_protocol.cc:105-292 | for sound fields of any size: a written message comes through exactly if it fits all limits and the fields tell its length; one whose head does not fit is refused |
| `HttpLaws.NoLengthTold` | src/brickred/protocol/http_protocol.cc:267-362 | a message that tells no length is refused, unless some spelling of Transfer-Encoding has the word chunked in it, in any case |
| `Arithmetic.NarrowedIsCongruent` | src/brickred/protocol/http_protocol.cc:169-172 | narrowing to int gives the one int that is congruent modulo 2^32 |
| `HttpProtocols.Print` | src/brickred/protocol/http_protocol.cc:509-517 | printing as snprintf does |
| `HttpProtocols.WriteHeaders` | src/brickred/protocol/http_protocol.cc:537-548 | all fields, none cut short |
| `HttpProtocols.WriteMessage` | src/brickred/protocol/http_protocol.cc:499-558 | the buffer gains exactly the written form: the room reserved is always enough |
| `HttpProtocols.HttpProtocol.ReadStartLine` | src/brickred/protocol/http_protocol.cc:132-213 | the start line is taken from the buffer exactly as the machine's handler does |
| `HttpProtocols.HttpProtocol.ReadHeader` | src/brickred/protocol/http_protocol.cc:215-265 | fields are put into the message in place, with every check and limit of the machine's handler |
| `HttpProtocols.HttpProtocol.ReadBody` | src/brickred/protocol/http_protocol.cc:267-292 | the body is taken from the buffer exactly as the machine's handler does |
| `HttpProtocols.HttpProtocol.RecvMessage` | src/brickred/protocol/http_protocol.cc:105-130 | the loop over the handlers is the machine's, and terminates |
| `HttpProtocols.HttpProtocol.Retrieve` | src/brickred/protocol/http_protocol.cc:365-399 | a finished message of the right kind is handed out once |

## Left out

- Integers are unbounded except where the width matters (bytes, 32-bit words, the SHA-256 length, the MT19937 arithmetic, the narrowing of timer periods, content lengths and base64 counts to int, frame lengths); overflow of sizes near 2^64 and of seconds is not modelled.
- Sockets, epoll, pipes, DNS, files, signals, clocks and pthread wrappers, which are foreign calls.
- `RankSet`: `clearNode` and memory reclamation, failing allocation while copying, moving and swapping of sets, and the iterator classes, which only wrap the node operations.
- `TimerHeap`: callbacks are a log and do not touch the heap; the early return of `minHeapErase` for a timer without a slot is not reachable for members, which is what the methods require.
- RankSets.RankSet.InsertNode: keeps the source's test whether the place is at the greatest node, although that place cannot come up, as a conditional assignment.
- TimerHeaps.TimerHeap.CheckTimeout: requires that no unlimited timer that is due has a period of zero milliseconds or less after narrowing to int, because the loop would not end for it.
- `WebSocketProtocol`: the opening handshake; the model starts connected, with an output callback set and a size limit that stays the same.
- `DynamicBuffer`: the overloads of the integer reads into wider types, and `readInt` calls, which are a peek and a read.
- `Mt19937`: `nextDouble`, the unseeded constructor and an empty key, for which the code reads outside the key.
- `ConcurrentQueue`: the mutex itself (a step is a stretch of code under it), `peek`, the size queries and the deletion of queued pointers.
- `TcpService`: accepting, the bytes received into the read buffer, and addresses; a context is a number; the write buffer is its byte sequence, as the contracts of `DynamicBuffer` give it. The callback of a later send takes the place of one still pending, as the code has it (`SendKeepsItsCallback`); the earlier one is then never called.
- `Sha256`: the hexadecimal form of the digest; MD5 and SHA-1, which have the same shape.
- `Base64`: the tables are given as ranges of letters.
- `HttpProtocol`: chunked bodies and trailer fields (reaching one is a result of its own in the model), the output callback, and the setters of the limits.
- HttpMachine.SegmentationIsInvisible: does not speak about chunked bodies, for which the limit counts whatever happens to be buffered.
- The URL codec, most string helpers, command-line parsing, logging, the object pool and random doubles, on which nothing above depends.

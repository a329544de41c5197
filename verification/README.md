# A verified model of the gateway's data structures and protocols

This project models, in Dafny 4.11, the parts of the gateway that carry its state, and proves what they promise. `dafny verify dfyconfig.toml` checks all of it.

* **The fd index** (`RbTree.dfy`, `IntrusiveList.dfy`, `Connections.dfy`). The red-black tree of `rbtree.c` with its parent pointers, rotations, recolourings and deletion in place; the circular lists of `list.h`; and the connections of `connection.c`, which hang in the tree and on one of two lists at the same time. Main results: linking and erasing keep a red-black tree and the order of the other nodes; every way down has equally many black nodes, none is more than twice as long as another, and the longest is logarithmic; look-up, index and list agree after every operation; the timeout sweep, which deletes while it walks, takes exactly the expired connections.
* **The byte stream to the server** (`Bits.dfy`, `Kfifo.dfy`, `Framing.dfy`, `Encoders.dfy`). The ring of `kfifo.c` with its wrapping 32-bit counters refines a bounded sequence of bytes; the scan of `protocol.c` drops no frame, finds every frame, and does not depend on how the stream was cut; the messages of `parseserver.c` are frames, and come out of the scan with their own id and length.
* **The link to the ZigBee processor** (`MessageQueue.dfy`, `QueueProtocol.dfy`, `RpcFrame.dfy`, `RpcHandshake.dfy`). The linked list of `queue.c`, its semaphore protocol for any number of threads, the frames of `rpc.c` under short reads, and the synchronous request handshake as steps of its threads. Main results: one counting law that holds in every interleaving, so that the unlocked test of the head never fails and no message is lost or delivered twice; and exactly when a request succeeds on its own answer.
* **The ZigBee Cluster Library foundation** (`ZclData.dfy`, `ZclHeader.dfy`, `ZclWrite.dfy`, `ZclDiscovery.dfy`, `ZclCodec.dfy`, `ZclReplies.dfy`), all of `znp_host_framework/linux_example/ZCL/zcl.c`. Main results: Write Attributes Undivided writes all or nothing, the plain Write exactly the records that it does not report; discovery pages through every attribute once; parsing gives back what was serialized; no message sets off more than two replies.
* **The IAS zone table** (`ZoneTables.dfy`): an enrolment succeeds exactly when the type is supported and fewer than 254 zones are held.

Where a class of the program updates its fields in place, so does the model: its methods are proved against ghost sequences or against functions, and the properties of those functions are lemmas.

## Where the code does not do what it is for

These are stated as properties of the code as it is, next to the property that holds.

* `protocol_check` calls itself and drops the result (lines 28, 33 and 46 of `protocol.c`). `Framing.Scan`, and `Framing.ScanFifo` on the ring, is the scan that returns it; `Framing.Coded` and the method `Framing.ProtocolCheck` follow the code, and `CodedIsOnePass` gives its nested calls as one pass over the bytes. `CodedReports` says exactly when the code reports the frame that the scan finds; one byte of junk in front of any frame is enough to lose the report (`LosesReport`). `CodedKeeps` says exactly when the code stays inside its buffer and leaves the same bytes. A declared length below 2 always takes it outside, which is the outcome `OutOfBounds` (`GoesOutside` is the shortest input), and after one between 2 and 7 it may pop one byte too many, which can be the first of a frame (`LosesByte`). After a length of 5, 6 or 7 it can also return a message that is no frame, with its bytes popped already (`FalseReport`); `CodedReturns` says exactly when a returned length is that of a frame at the head, and `CodedHalf` when a message is called incomplete.
* A declared length above 1024 is never complete inside the scan window of 1024 bytes, and stalls the scan (`HalfStalls`; `HalfCompletes` says which half frames can be completed).
* `kfifo_pop` compares the counters as numbers, so it does nothing once `in` has wrapped past `out` (the third clause of `Kfifo.Pop` says exactly when; `WrappedPop` is a history that comes to this point). From there on a scan that has a byte to drop calls itself without end (`PopStuck`).
* Write Attributes Undivided computes the length of the header of its saved records from a counter that is still 0, so that saved data overlay saved records as soon as there is any (`HeaderAsComputed`); the model keeps them apart. Its restores run forward, so an attribute that is written more than once before a failure ends up with the last value written but one (`TwiceWritten`, and `RestoresAll` for the exact condition).
* The counting pass of Configure Reporting steps over a byte that is not there for discrete data types. It stays in step with the records exactly if only the last one has such a type (`InStepExact`), and then counts right (`CountWire`). Out of step, it can count two records as three (`Miscounted`) or come to the right numbers all the same (`CountedByChance`).
* A page of discovered attributes is right exactly if it does not come to an attribute with the reserved id 0xFFFF (`OnePage`), from which the search goes on at 0. If the cluster has such an attribute for the direction, the client is never told that the discovery is complete (`NeverComplete`).
* Default responses to manufacturer-specific messages can go back and forth for ever (`ManufacturerStorm`). `NoStormExact` says for exactly which messages the bound of two replies holds.
* Between the time-out of a synchronous request and the reset of the expected id, a late answer is accepted, and makes the next request succeed (`LateAnswer`; `SuccessIsOwn` for the exact condition).

## Model

| member | source | states |
|---|---|---|
| RbTree.RbRoot.RotateLeft | rbtree.c:25-43 | a left rotation keeps shape, order and all child links but three, and fixes the parent links |
| RbTree.RbRoot.RotateRight | rbtree.c:45-63 | the mirror image |
| RbTree.RbRoot.LinkNode | rbtree.c:388-394 | the new red leaf takes the position of its vacant link; everything else holds except perhaps red under red there |
| RbTree.RbRoot.InsertStepLeft | rbtree.c:73-98 | one round moves the only red-red pair two levels up, or removes it by one or two rotations |
| RbTree.RbRoot.InsertStepRight | rbtree.c:99-124 | the mirror image |
| RbTree.RbRoot.InsertColor | rbtree.c:65-128 | from a tree with one red-red pair to a red-black tree with the same nodes in the same order; the loop ends |
| RbTree.RbRoot.EraseStepLeft | rbtree.c:137-176 | one round keeps "one black node short on this side", and moves it up or settles it |
| RbTree.RbRoot.EraseStepRight | rbtree.c:177-216 | the mirror image |
| RbTree.RbRoot.EraseColor | rbtree.c:130-220 | from a tree that is one black node short at one place to a red-black tree; the loop ends |
| RbTree.RbRoot.EraseLeaf | rbtree.c:276-293 | erasing a node with at most one child leaves a red-black tree of the others, in order |
| RbTree.RbRoot.EraseInner | rbtree.c:231-274 | the same for a node with two children, also when its successor is its right child |
| RbTree.RbRoot.Erase | rbtree.c:222-294 | whichever node is erased, a red-black tree of the others remains, in their order |
| RbTree.RbRoot.First | rbtree.c:299-309 | the first node in order, or null for an empty tree |
| RbTree.RbRoot.Last | rbtree.c:311-321 | the last node in order, or null |
| RbTree.RbRoot.Next | rbtree.c:323-344 | the node at the next position, or null at the end; the climb ends |
| RbTree.RbRoot.Prev | rbtree.c:346-363 | the node at the position before, so that it undoes Next |
| RbTree.RbRoot.VisitAll | rbtree.c:299-344 | rb_first and repeated rb_next visit every node once, in order |
| RbTree.RbRoot.InOrderIsOrder | rbtree.c:296-344 | the order is the one that the child pointers spell out, by recursion over them |
| RbTree.RbRoot.WaysDown | rbtree.c:65-294 | every way down from a node of a red-black tree passes its black height of black nodes, and at most twice as many nodes |
| RbTree.RbRoot.EvenlyDeep | rbtree.c:65-294 | all ways down from the root have equally many black nodes, and none is more than twice as long as another |
| RbTree.RbRoot.HeightLogarithmic | rbtree.c:65-294 | 2 to the half of the height is at most the number of nodes plus one |
| IntrusiveList.AddTail | list.h:86-89 | the entry comes last on the ring, both ways round |
| IntrusiveList.Add | list.h:72-75 | the entry comes first |
| IntrusiveList.DelInit | list.h:148-152 | the ring without the entry, and the entry alone on its own |
| IntrusiveList.SpliceInit | list.h:265-317 | the entries of one ring go in front of those of another, and the first ring is empty |
| IntrusiveList.CutPosition | list.h:225-263 | a ring is cut in two behind an entry; an empty ring leaves the target as it was |
| IntrusiveList.IsEmpty | list.h:192-195 | true exactly for a ring without entries |
| Connections.Table.constructor | connection.c:61-85 | the empty index and lists agree |
| Connections.Table.Lookup | connection.c:114-130 | finds a connection exactly when one on the list has the fd, in logarithmically many steps |
| Connections.Table.FindSlot | connection.c:145-163 | the search ends at a connection with the fd, or at the vacant link where it belongs |
| Connections.Table.TryInsert | connection.c:145-167 | returns the connection that has the fd, or hangs the new one in the tree by fd |
| Connections.Table.Insert | connection.c:169-180 | a held connection whose fd is new becomes the last one on the list and is indexed; with an fd that is indexed already it stops, with nothing changed |
| Connections.Table.Del | connection.c:182-188 | the connection leaves index and list and goes to the end of the free list; the rest is untouched |
| Connections.Table.GetConn | connection.c:63-77 | the first free connection, wiped, or a new one, now with the caller |
| Connections.Table.FreeAdd | connection.c:79-81 | a held connection goes to the end of the free list |
| Connections.Table.Init | connection.c:23-26 | sets fd and type; on a listed connection it keeps the index exactly if the new fd has the place of the old one |
| Connections.Table.HasKind | connection.c:91-101 | true exactly when a listed connection has the type |
| Connections.Table.Visit | connection.c:105-111 | one round of the sweep: the saved successor is the next entry also after a deletion |
| Connections.Table.Sweep | connection.c:103-112 | removes exactly the expired client and server connections, the others stay in order |
| Connections.SweepPartitions | connection.c:103-112 | what the sweep keeps and what it frees is what there was, without loss or repetition |
| Connections.Table.DescriptorsDistinct | connection.c:145-167 | no two listed connections have the same fd |
| Connections.Table.StepBound | connection.c:114-130 | a descent in the tree takes at most about twice the logarithm of the number of listed connections |
| MessageQueue.Llq.constructor | znp_host_framework/framework/rpc/queue.c:105-110 | a new queue is empty |
| MessageQueue.Llq.AddToHead | znp_host_framework/framework/rpc/queue.c:48-69 | the message comes first, the others keep their order |
| MessageQueue.Llq.AddToTail | znp_host_framework/framework/rpc/queue.c:71-94 | the message comes last |
| MessageQueue.Llq.TakeHead | znp_host_framework/framework/rpc/queue.c:152-171 | takes the first message, and leaves an empty list consistent |
| QueueProtocol.Add | znp_host_framework/framework/rpc/queue.c:48-94 | on the linked list, an urgent message goes to the head and another one to the tail, as in the steps |
| QueueProtocol.Take | znp_host_framework/framework/rpc/queue.c:153-174 | the first message comes off the list, as in the steps |
| QueueProtocol.StepCounts | znp_host_framework/framework/rpc/queue.c:129-236 | each step keeps: length = count + added but not posted + counted but not removed |
| QueueProtocol.StepConserves | znp_host_framework/framework/rpc/queue.c:129-236 | each step keeps what was added equal to what was taken and what is queued |
| QueueProtocol.AddConserves | znp_host_framework/framework/rpc/queue.c:213-228 | adding keeps messages, the order of ordinary ones, and urgent ones in front |
| QueueProtocol.TakeConserves | znp_host_framework/framework/rpc/queue.c:152-171 | so does taking the head |
| QueueProtocol.RunKeepsInv | znp_host_framework/framework/rpc/queue.c:129-236 | the counting law holds after every run of any number of threads |
| QueueProtocol.MutualExclusion | znp_host_framework/framework/rpc/queue.c:149-174 | one thread at a time works on the list |
| QueueProtocol.HeadNeverNull | znp_host_framework/framework/rpc/queue.c:145-150 | who has spent a count finds a message, before and after taking the lock |
| QueueProtocol.RunIsSafe | znp_host_framework/framework/rpc/queue.c:129-236 | in every reachable state: exclusion, no count spent for nothing, nothing lost or doubled, ordinary messages in order |
| QueueProtocol.StepMoves | znp_host_framework/framework/rpc/queue.c:48-174 | an urgent message is put in front of everything queued, another behind it; the head is taken; no other step changes the queue |
| QueueProtocol.UrgentOvertakes | znp_host_framework/framework/rpc/queue.c:59-67 | in every later state of a run an urgent message is in front of all that was queued when it came, or was taken when it was |
| QueueProtocol.Quiescent | znp_host_framework/framework/rpc/queue.c:129-236 | with all threads idle the count is the number of queued messages |
| QueueProtocol.NoDeadlock | znp_host_framework/framework/rpc/queue.c:129-236 | a thread can move on unless it waits for a message, or for a lock whose holder can move on |
| Bits.AndMask | kfifo.c:82-83 | masking with size - 1 is the remainder, for a power of two |
| Kfifo.SlotAdvance | kfifo.c:81-88 | the offset of a counter moves with it round the ring, also across its 32-bit wrap |
| Kfifo.RingAppend | kfifo.c:81-86 | two copies split at the end of the buffer append to the ring |
| Kfifo.RingRead | kfifo.c:112-117 | two copies read the oldest bytes in order |
| Kfifo.RingDrop | kfifo.c:119-119 | moving the start drops the oldest bytes |
| Kfifo.Kfifo.constructor | kfifo.c:34-49 | a new ring is empty |
| Kfifo.Kfifo.Reset | kfifo.h:48-51 | empties the ring |
| Kfifo.Kfifo.Put | kfifo.c:74-91 | appends the longest prefix that fits and returns its length |
| Kfifo.Kfifo.Get | kfifo.c:105-122 | removes and returns the longest available prefix |
| Kfifo.Kfifo.GetAhead | kfifo.c:141-156 | returns the same prefix without removing it |
| Kfifo.Kfifo.Pop | kfifo.c:124-127 | drops the oldest byte if in > out, and nothing otherwise; so a ring that is not empty loses its head exactly while in >= out |
| Kfifo.WrappedPop | kfifo.c:74-156 | a run from the new ring after which in < out, two bytes are stored, and the pop leaves both |
| Framing.Checksum | protocol.c:6-14 | the exclusive or of the first bytes |
| Framing.LookFrame | protocol.c:26-49 | a frame is seen at the head exactly when one with matching length, checksum and end byte begins there |
| Framing.LookExactly | protocol.c:17-37 | exactly which heads are half frames, frames, or nothing |
| Framing.DropSound | protocol.c:26-47 | a byte is dropped only if no frame can begin there, whatever follows |
| Framing.LookMore | protocol.c:17-55 | more input changes no verdict except that a half frame may be completed |
| Framing.ScanChunks | protocol.c:17-55 | scanning piece by piece gives what scanning all at once gives |
| Framing.ScanSkips | protocol.c:17-55 | the scan leaves a suffix of its input and passes over no frame |
| Framing.ScanFinds | protocol.c:17-55 | behind junk without a start byte, a frame is found with its id and length |
| Framing.ScanFifo | protocol.c:17-55 | the scan on the ring, with the results of its recursive calls passed on, leaves and finds what the scan of the bytes does, also after the wrap if nothing is to be dropped |
| Framing.PopStuck | protocol.c:25-35 | if in has wrapped past out and a byte is to be dropped, the recursive call finds the state of this one |
| Framing.HalfCompletes | protocol.c:30-37 | a half frame can be completed exactly when its length is in reach and its checksum, if there, is right |
| Framing.ProtocolCheck | protocol.c:17-55 | what the code leaves in the ring and returns, through the ring buffer |
| Framing.CodedReports | protocol.c:17-55 | for every input: the scan finds a frame and the code reports it exactly when it is at the head already |
| Framing.CodedReturns | protocol.c:30-44 | for every input: the code returns a length exactly for a frame at the head, or for a declared length below 8 that passes the checksum if the call in between stays inside the buffer |
| Framing.ShortLengths | protocol.c:30-44 | such a length is 5, 6 or 7 |
| Framing.FalseReport | protocol.c:30-44 | five bytes that are returned as a message, with four of them popped, though no frame begins there |
| Framing.CodedHalf | protocol.c:30-37 | for every input: a message is called incomplete exactly for a half frame, or a length out of range that is longer than what is there |
| Framing.CodedIsOnePass | protocol.c:17-55 | what the nested calls leave, and whether they stay inside the buffer, is found in one pass that counts the pops still to come |
| Framing.CodedKeeps | protocol.c:17-55 | for every input: the code stays inside its buffer and leaves the bytes that the scan leaves exactly when no dropped byte begins a length below 2, and it never pops twice or nothing is left |
| Framing.GoesOutside | protocol.c:30-44 | a declared length of 0 takes the code outside its buffer |
| Framing.LosesReport | protocol.c:25-28 | one byte of junk in front of any frame: the scan finds it, the code does not report it |
| Framing.LosesByte | protocol.c:30-47 | a length of 3 in front of any frame: the scan finds it, the code pops its first byte |
| Encoders.ValueOfBigEndian | bytebuffer.h:127-182 | what is written most significant byte first is read back, truncated to its width |
| Encoders.WriteWord | bytebuffer.h:127-130 | two bytes at the cursor, and nothing else changes |
| Encoders.WriteMac | bytebuffer.h:147-175 | the low 48 bits, most significant byte first |
| Encoders.EncodeChecksum | parseserver.c:209-218 | the exclusive or of the bytes |
| Encoders.EncodeHeart | parseserver.c:86-103 | the buffer holds the heart message |
| Encoders.EncodeOperback | parseserver.c:106-123 | the buffer holds the operation result message |
| Encoders.EncodeAlarm | parseserver.c:126-149 | the buffer holds the alarm message, its zone type cut to a byte |
| Encoders.EncodeLogin | parseserver.c:45-82 | the buffer holds the login message with all devices and its length patched in |
| Encoders.MessageIsFrame | parseserver.c:45-149 | a message is a frame exactly when it has a payload and at most 1024 bytes |
| Encoders.MessageLayout | parseserver.c:45-149 | length and id, high byte first, between start byte and payload; the bytes up to the checksum cancel out |
| Encoders.HeartLayout | parseserver.c:86-103 | the gateway id in 48 bits |
| Encoders.OperbackLayout | parseserver.c:106-123 | gateway id, serial id and result at their places |
| Encoders.AlarmLayout | parseserver.c:126-149 | gateway id, zone type, address, time and alarm at their places |
| Encoders.LoginLayout | parseserver.c:45-57 | gateway id, number of devices, devices |
| Encoders.DevicesInOrder | parseserver.c:58-70 | the devices follow one another in their order |
| Encoders.DeviceLayout | parseserver.c:61-69 | id, company, status and name of a device at their places |
| Encoders.Accepted | protocol.c:17-55 | such a message, after junk and before any bytes, is found with its own id and length |
| Encoders.EncodersAccepted | parseserver.c:45-149 | heart, operback and alarm messages always are, a login message exactly up to 1024 bytes |
| RpcFrame.CalcFcs | znp_host_framework/framework/rpc/rpc.c:529-540 | the exclusive or of the bytes |
| RpcFrame.FcsDetects | znp_host_framework/framework/rpc/rpc.c:529-540 | strings that differ in one byte have different sums |
| RpcFrame.BuildFrame | znp_host_framework/framework/rpc/rpc.c:446-473 | start byte, length, command, payload and their checksum |
| RpcFrame.Layout | znp_host_framework/framework/rpc/rpc.c:446-473 | start byte, length, the two command bytes and the payload at their places; the others cancel out |
| RpcFrame.ReadBody | znp_host_framework/framework/rpc/rpc.c:307-353 | whatever the split into reads, the body is complete and exact, or a sixth read failed, or bytes are missing; it uses just as many reads as offer enough |
| RpcFrame.Process | znp_host_framework/framework/rpc/rpc.c:276-423 | a served frame is judged byte for byte and taken off the line; nothing else is delivered |
| RpcFrame.SentIsJudged | znp_host_framework/framework/rpc/rpc.c:358-405 | a frame as sent passes, an expected SRSP to the head of the queue, an unexpected one nowhere, others to the tail |
| RpcFrame.ArrivalMeans | znp_host_framework/framework/rpc/rpc.c:367-405 | an SRSP is type 3 in the upper three bits of the command, its subsystem the lower five |
| RpcFrame.JudgedExactly | znp_host_framework/framework/rpc/rpc.c:358-405 | a frame is rejected exactly if its bytes do not cancel out, else handed on as it came by its command type |
| RpcFrame.SendAndProcess | znp_host_framework/framework/rpc/rpc.c:276-473 | any sequence of commands that fit the buffer, under any split into reads with at most five failures for each: all are delivered byte for byte and in order, and what follows is left |
| RpcFrame.CorruptionIsRejected | znp_host_framework/framework/rpc/rpc.c:358-365 | a frame with one byte changed after its length is rejected |
| RpcFrame.ProcessCorrupted | znp_host_framework/framework/rpc/rpc.c:276-365 | read from the line under any such split, it is taken off and rejected |
| RpcHandshake.StepKeeps | znp_host_framework/framework/rpc/rpc.c:435-513 | each step keeps: one sender at a time, tokens counted, the expected id set exactly by the request in flight |
| RpcHandshake.MutualExclusion | znp_host_framework/framework/rpc/rpc.c:441-510 | in every run at most one sender is past the first semaphore |
| RpcHandshake.OnlyExpectedQueued | znp_host_framework/framework/rpc/rpc.c:367-395 | an SRSP is queued only if its subsystem was the expected one when it was compared |
| RpcHandshake.AcceptedIsQueued | znp_host_framework/framework/rpc/rpc.c:374-385 | an SRSP whose post was made is queued in every later state, or about to be |
| RpcHandshake.SuccessIsOwn | znp_host_framework/framework/rpc/rpc.c:367-513 | with a timely peer, success rests on the own answer exactly if srspSem was 0 and no post was pending when the request began |
| RpcHandshake.NothingLeftOver | znp_host_framework/framework/rpc/rpc.c:367-513 | with undivided compare-and-post and time-out-and-reset, srspSem is 0 whenever rpcSem is free |
| RpcHandshake.EverySuccessIsOwn | znp_host_framework/framework/rpc/rpc.c:367-513 | then every success rests on the request's own answer |
| RpcHandshake.LateAnswer | znp_host_framework/framework/rpc/rpc.c:491-506 | without that, a run in which a request succeeds without its answer |
| ZoneTables.RoomForAnother | znp_host_framework/linux_example/zcl/zcl_ss.c:132-153 | distinct ids leave one free exactly when there are fewer than 254 |
| ZoneTables.EveryIdPassed | znp_host_framework/linux_example/zcl/zcl_ss.c:173-179 | the search order passes every id and comes back after 255 places |
| ZoneTables.SupportedTypes | znp_host_framework/linux_example/zcl/zcl_ss.c:11-24 | the supported zone types by number |
| ZoneTables.ZoneTable.CountAllZones | znp_host_framework/linux_example/zcl/zcl_ss.c:108-121 | the number of zones; its 8 bits do not overflow |
| ZoneTables.ZoneTable.ZoneIdAvailable | znp_host_framework/linux_example/zcl/zcl_ss.c:132-153 | true exactly for an unused id below 254 |
| ZoneTables.ZoneTable.NextAvailable | znp_host_framework/linux_example/zcl/zcl_ss.c:170-180 | the first free id after the last one handed out, within 255 steps |
| ZoneTables.ZoneTable.GetNextFreeZoneId | znp_host_framework/linux_example/zcl/zcl_ss.c:164-193 | the first free id counting up from the last one and over from 254 to 0: all between are taken; or 255 exactly when none is free |
| ZoneTables.ZoneTable.AddZone | znp_host_framework/linux_example/zcl/zcl_ss.c:60-97 | any zone is appended to the list; the table stays one of distinct valid ids exactly if the id was free |
| ZoneTables.ZoneTable.EnrollRequest | znp_host_framework/linux_example/zcl/zcl_ss.c:226-270 | the response code, the new zone, and success exactly for a supported type and fewer than 254 zones |
| ZclData.LengthOfPrefix | znp_host_framework/linux_example/ZCL/zcl.c:3152-3170 | the length of a value does not depend on what follows it |
| ZclData.OverwriteIsWhole | znp_host_framework/linux_example/ZCL/zcl.c:3352-3353 | a value copied over a store is the value of the store |
| ZclData.SerializeNumber | znp_host_framework/linux_example/ZCL/zcl.c:2843-2930 | numbers go out as their little-endian bytes |
| ZclData.SerializeData | znp_host_framework/linux_example/ZCL/zcl.c:2833-2941 | every data type writes its value: as many bytes as its length function says, for long strings without the cut to 16 bits |
| ZclData.LengthsAgree | znp_host_framework/linux_example/ZCL/zcl.c:2922-2930 | the two lengths differ exactly for long strings of 65534 bytes and more |
| ZclData.LengthsByFamily | znp_host_framework/linux_example/ZCL/zcl.c:3059-3140 | the length of each data type, family by family |
| ZclData.OtherLengths | znp_host_framework/linux_example/ZCL/zcl.c:3059-3140 | the types without data |
| ZclData.AnalogTypes | znp_host_framework/linux_example/ZCL/zcl.c:2953-2980 | the types with a reportable change |
| ZclData.StringLengths | znp_host_framework/linux_example/ZCL/zcl.c:3152-3170 | one or two length bytes in front of a string |
| ZclHeader.BuildThenParse | znp_host_framework/linux_example/ZCL/zcl.c:2279-2350 | a header that was built is parsed back, and its size is the calculated one |
| ZclHeader.ParseThenBuild | znp_host_framework/linux_example/ZCL/zcl.c:2279-2350 | a header that was parsed is built back exactly if its reserved bits are clear |
| ZclHeader.Layout | znp_host_framework/linux_example/ZCL/zcl.c:2324-2350 | the bits of the frame control, the manufacturer code low byte first, sequence number and command |
| ZclWrite.Attribute.Set | znp_host_framework/linux_example/ZCL/zcl.c:4501-4502 | copying a value over the store makes it the attribute's value |
| ZclWrite.WrittenAt | znp_host_framework/linux_example/ZCL/zcl.c:4620-4674 | after some writes an attribute has the value of the last one to it |
| ZclWrite.RestoredAt | znp_host_framework/linux_example/ZCL/zcl.c:4482-4511 | after the restores it has the value saved before the last restored write to it |
| ZclWrite.RestoresAll | znp_host_framework/linux_example/ZCL/zcl.c:4482-4511 | restoring gives back every value exactly when each surviving write wrote what was there |
| ZclWrite.NoSurvivor | znp_host_framework/linux_example/ZCL/zcl.c:4482-4511 | with distinct attributes and accepted restores no write survives |
| ZclWrite.AllOrNothing | znp_host_framework/linux_example/ZCL/zcl.c:4522-4695 | for distinct ids: all new values on success, all old ones otherwise |
| ZclWrite.CheckMeans | znp_host_framework/linux_example/ZCL/zcl.c:4544-4599 | a record is let through exactly if its attribute exists, has its type, and its access bits allow it to anyone; else the status says which fails |
| ZclWrite.UndividedExact | znp_host_framework/linux_example/ZCL/zcl.c:4522-4695 | which of the three responses is given, by the records and the answers; it names the first offending record with its status |
| ZclWrite.UndividedRespects | znp_host_framework/linux_example/ZCL/zcl.c:4522-4695 | an attribute that is read only, needs authorization, or is not named keeps its value |
| ZclWrite.TwiceWritten | znp_host_framework/linux_example/ZCL/zcl.c:4482-4511 | an attribute written more than once before the failure keeps the last value written but one |
| ZclWrite.AppliedAt | znp_host_framework/linux_example/ZCL/zcl.c:4397-4442 | after a plain Write an attribute has the value of the last successful record to it, or its old one |
| ZclWrite.StatusMeans | znp_host_framework/linux_example/ZCL/zcl.c:4397-4442 | the status of a record of a plain Write, by number |
| ZclWrite.WriteRespects | znp_host_framework/linux_example/ZCL/zcl.c:3339-3406 | a plain Write leaves an attribute alone that is read only or that nobody is authorized to write |
| ZclWrite.NoFailures | znp_host_framework/linux_example/ZCL/zcl.c:4444-4454 | the single SUCCESS is answered exactly when every record succeeded |
| ZclWrite.FailuresExact | znp_host_framework/linux_example/ZCL/zcl.c:4418-4442 | with distinct ids the response names each failed record with its status, and no other |
| ZclWrite.Cluster.WriteOne | znp_host_framework/linux_example/ZCL/zcl.c:3339-3406 | the status of one record, and its value in place exactly on success |
| ZclWrite.Cluster.ProcessInWriteCmd | znp_host_framework/linux_example/ZCL/zcl.c:4375-4465 | every record that can be written is, whatever the others do; the response is one success or the failures |
| ZclWrite.HeaderAsComputed | znp_host_framework/linux_example/ZCL/zcl.c:4607-4618 | saved data overlay saved records exactly when there are any |
| ZclWrite.Cluster.FindAttrRec | znp_host_framework/linux_example/ZCL/zcl.c:2503-2522 | the first attribute with the id |
| ZclWrite.Cluster.FindRefused | znp_host_framework/linux_example/ZCL/zcl.c:4544-4599 | the first record that is unsupported, of the wrong type, read-only or not authorized, and nothing is written |
| ZclWrite.Cluster.Revert | znp_host_framework/linux_example/ZCL/zcl.c:4482-4511 | restores saved values in the order of the writes |
| ZclWrite.Cluster.ProcessInWriteUndividedCmd | znp_host_framework/linux_example/ZCL/zcl.c:4522-4695 | the response names the first failing record, or success; values and response are those of Outcome |
| ZclDiscovery.FindNextAttrRec | znp_host_framework/linux_example/ZCL/zcl.c:2787-2817 | the first attribute of cluster and direction from the id on |
| ZclDiscovery.CollectAttrs | znp_host_framework/linux_example/ZCL/zcl.c:4719-4727 | the list that repeated searching gives, and the id to go on from |
| ZclDiscovery.ProcessInDiscAttrs | znp_host_framework/linux_example/ZCL/zcl.c:4708-4802 | the response to one request |
| ZclDiscovery.NextIsHead | znp_host_framework/linux_example/ZCL/zcl.c:2787-2817 | in ascending lists the next attribute is the first of what is left, and the rest lies behind its id |
| ZclDiscovery.OnePage | znp_host_framework/linux_example/ZCL/zcl.c:4757-4802 | one response lists the first so many, and is complete exactly if none remain, unless and only unless it comes to the id 0xFFFF |
| ZclDiscovery.Pages | znp_host_framework/linux_example/ZCL/zcl.c:4708-4802 | if no attribute asked for has that id, asking again from the id after the last ends, and lists all that there is to discover, in order |
| ZclDiscovery.MatchingIsExact | znp_host_framework/linux_example/ZCL/zcl.c:2797-2812 | that is each attribute of cluster and direction once, by ascending id; the direction is the access bit 0x80 |
| ZclDiscovery.NeverComplete | znp_host_framework/linux_example/ZCL/zcl.c:4719-4746 | if one has it, every response from every start is full and says that there is more |
| ZclCodec.HeadRoundTrip | znp_host_framework/linux_example/ZCL/zcl.c:1276-1283 | the fields in front of the data are read back, for five kinds of list |
| ZclCodec.FrontRecord | znp_host_framework/linux_example/ZCL/zcl.c:3625-3646 | a record in front of any bytes is recognised with its fields and its data |
| ZclCodec.CountWire | znp_host_framework/linux_example/ZCL/zcl.c:3592-3612 | then it finds the exact number of records and the size of their padded data |
| ZclCodec.InStepExact | znp_host_framework/linux_example/ZCL/zcl.c:3736-3756 | for every list: the counting pass stands at every record boundary exactly if only the last record may have a discrete type |
| ZclCodec.Miscounted | znp_host_framework/linux_example/ZCL/zcl.c:3748-3751 | two records of Configure Reporting that are counted as three |
| ZclCodec.CountedByChance | znp_host_framework/linux_example/ZCL/zcl.c:3748-3751 | two that are counted right out of step |
| ZclCodec.RecordsWire | znp_host_framework/linux_example/ZCL/zcl.c:3488-3650 | parsing is the inverse of serializing |
| ZclCodec.Layout | znp_host_framework/linux_example/ZCL/zcl.c:1276-1283 | every kind of record byte for byte, numbers low byte first |
| ZclCodec.WireConcat | znp_host_framework/linux_example/ZCL/zcl.c:1272-1284 | the records of a payload follow one another in their order |
| ZclCodec.WireOne | znp_host_framework/linux_example/ZCL/zcl.c:1276-1283 | a payload of one record is that record |
| ZclCodec.LengthPass | znp_host_framework/linux_example/ZCL/zcl.c:1259-1267 | the length pass adds up the number of bytes that are written, in 16 bits |
| ZclCodec.Serialize | znp_host_framework/linux_example/ZCL/zcl.c:1156-1295 | the buffer is as long as needed and holds the records one after the other |
| ZclCodec.CountPass | znp_host_framework/linux_example/ZCL/zcl.c:3592-3612 | the counting pass over any payload, in 8 and 16 bits |
| ZclCodec.CopyPass | znp_host_framework/linux_example/ZCL/zcl.c:3621-3646 | the copying pass finds the records and puts their data in separate slices |
| ZclCodec.Parse | znp_host_framework/linux_example/ZCL/zcl.c:3582-3650 | both passes give back the records; the slices lie behind the header exactly if its size fits 8 bits |
| ZclReplies.Endpoint.SetSecurityOption | znp_host_framework/linux_example/ZCL/zcl.c:2677-2693 | sets or clears the security bit of the cluster's option only |
| ZclReplies.Endpoint.SendCommand | znp_host_framework/linux_example/ZCL/zcl.c:970-1089 | the message goes out secured if its cluster or the message that it answers is |
| ZclReplies.Endpoint.RejectUnsecured | znp_host_framework/linux_example/ZCL/zcl.c:2121-2140 | the answer goes out unsecured, and the options are restored |
| ZclReplies.Endpoint.ProcessMessage | znp_host_framework/linux_example/ZCL/zcl.c:2039-2263 | which answer is sent, with what result, also for inter-PAN traffic; afterwards no message is kept and all options are as before; an empty packet is ignored |
| ZclReplies.AnsweredExactly | znp_host_framework/linux_example/ZCL/zcl.c:2121-2234 | exactly when a message is answered: by a default response if it is insecure or one is due, by its response if it is a request |
| ZclReplies.AnsweredWith | znp_host_framework/linux_example/ZCL/zcl.c:2121-2234 | with which command, cluster, direction, status and security |
| ZclReplies.AnsweredFor | znp_host_framework/linux_example/ZCL/zcl.c:2127-2232 | with which manufacturer code |
| ZclReplies.ResultMeans | znp_host_framework/linux_example/ZCL/zcl.c:2039-2263 | with which result the processing ends |
| ZclReplies.SecurityBit | znp_host_framework/linux_example/ZCL/zcl.c:2677-2693 | only the bit 0x40 of an option is set or cleared |
| ZclReplies.RepliesAreQuiet | znp_host_framework/linux_example/ZCL/zcl.c:2115-2234 | every reply disables the default response, and is answered exactly if it comes unsecured where security is demanded |
| ZclReplies.NoStorm | znp_host_framework/linux_example/ZCL/zcl.c:2039-2263 | a message that is not manufacturer-specific sets off at most two replies, over any number of hops |
| ZclReplies.ManufacturerStorm | znp_host_framework/linux_example/ZCL/zcl.c:2121-2234 | a manufacturer-specific one to a single node, unless secured and quiet, can set off as many as there are hops |
| ZclReplies.NoStormExact | znp_host_framework/linux_example/ZCL/zcl.c:2039-2263 | so the bound of two over all hops holds for exactly the other messages |

## Left out

- ProtocolCheck: as ScanFifo, it is stated while in >= out or nothing is to be dropped; otherwise the code recurses without end (`PopStuck`).
- CountWire: which lists out of step are counted right by chance is not characterised; it depends on how the bytes behind the lost one happen to read.
- Process: a length byte of 252 or more, beyond the limit of 250 of the protocol, ends in the outcome `Overrun`, because there the count of the rest wraps or the value 255 of a failed read looks like a full one.
- ProcessInWriteCmd: requires that the value of a record fits the storage of its attribute (`FitAll`); the code copies a string of any length over it.
- WriteOne: the same.
- ProcessInWriteUndividedCmd: the same (`Fit`).
- AllOrNothing: the saved values are kept apart from the saved records, as intended and not as line 4608 computes it (`HeaderAsComputed`).
- ZclCodec.Parse: is stated for lists that the counting pass counts right, of less than 256 records and 65536 bytes of data, the range of its counters.
- Serialize: requires a payload of less than 65536 bytes, the range of the length pass.
- EnrollRequest: allocation succeeds, so the answer "no enrol permit" does not occur (the code clears the new item before it tests the pointer); the zone id in a refused response is not modelled, since the code leaves it unset.
- The receive buffer of a connection is not a field of `Connections.Connection`; the ring buffer is modelled on its own.
- `_connrbtree_dump` and all other printing. It reads through the result of `rb_first` without a test, so deleting the last connection would read through a null pointer there.
- The reconnect thread (`reconn.c`) uses the connections without a lock; runs of the connection model are single-threaded.
- In the handshake model the peer sends an SRSP only in answer to an SREQ, and at most one to each.
- The queue and handshake models take each access to a shared variable as one step; the memory model of C is not modelled.
- `znpframe_check`: the same scan with other constants, and the same dropped results.
- `rb_replace_node`, which nothing calls; the replacement inside `rb_erase` is modelled.
- Sockets, the serial port, timers, the event loop, the database, and the console programs.
- `gateway.c`: the encoders take the list of devices as given.
- ZCL: reading, command discovery, payloads whose records run past their end (a parser that reads behind the payload sees zeros here), attributes read through callbacks while a response is sent, structure padding, and big-endian hosts.
- In both Write commands the answers of the application, to each request for authorization, each write and each restore, are parameters; a write that it refuses leaves the value as it was, and reading an old value succeeds.
- Failing allocation, apart from the parameters of `ZclReplies.World`.

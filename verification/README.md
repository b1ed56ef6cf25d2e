# UCP in Dafny

UCP sends one partition of a file over UDP by selective repeat. A client worker cuts the partition
into packets and keeps two windows, in flight and pending. A server saves each packet at its offset,
queues its number between two threads, acknowledges it, records it in a set kept as a list of ranges,
asks for the numbers that are missing, and ends with a FIN. This project models one client worker, one
server with both its threads, the channels between them and the data structures underneath, and proves
what a stopped client may conclude about the receiver's file.

## Layers

| files | what they hold |
|---|---|
| `Basics.dfy` | machine words, sizes, sequences with one position taken out or put in |
| `LinkedLists.dfy` | the circular list with its sentinel, on the heap |
| `Ranges.dfy`, `Polling.dfy`, `SequencerRuns.dfy` | the range list as a value: what the walks do to the set it stands for, how fast polling merges ranges, and every series of calls |
| `Sequencer.dfy` | the sequencer on the heap, tied to that value |
| `Packets.dfy`, `FileIO.dfy` | the byte codec; cutting a partition and writing into the receiver's file |
| `ClientSpec.dfy`, `Retransmission.dfy`, `Client.dfy` | the client worker as a value, when it repeats a packet, and the worker on the heap |
| `ServerSpec.dfy`, `Server.dfy` | the server's steps as functions, and the server on the heap |
| `Transfer.dfy`, `Safety.dfy` | the whole system as interleaved steps, its invariant, and what holds on every run |
| `Transcript.dfy` | everything the server says, in order, on every run |
| `Connection.dfy`, `Dependability.dfy` | the runs whose control packets arrive as a connection delivers them; the runs built to show when a stopped client is misled, and the end-to-end equivalences |
| `ByteStream.dfy`, `SplitReads.dfy` | the control connection as a stream of bytes, whose reads may begin and end inside a packet, and what is left of the guarantee then |

Each class is proved equal, method by method, to functions on values (`Seqr`, `Client`, `Server`), and
the system steps of `Transfer.dfy` are those same functions. The wires of `Transfer.dfy` carry bytes:
what is sent is an encoder's output, what arrives is decoded out of a buffer with arbitrary bytes behind
it. In `Transfer.dfy` a message that was ever sent can arrive at any later time, any number of times, or
never; what is proved of every run is proved of all these. `Connection.dfy` has the runs of the code's
control connection: packets are read in the order they were sent, each byte once, by reads of at most one
segment, with at most one read in a tick. Each of them is a run of `Transfer.dfy`, and every result that
says that some run exists builds one of them. In both, a read begins at a control packet, and whole packets
are read. The connection promises no such thing: `ByteStream.dfy` has the runs whose reads take any number
of bytes, up to a segment.

Ranges and list elements are heap objects with an owner. Allocation puts an object into the owner's ghost
set `live`, release takes it out and needs it to be there, every read of a field needs it to be there, and
`Valid` says that `live` is what hangs on the list.

## What the code does, where it differs from what it seems to intend

- `src/ucp_server.c:180` compares the control flag with `UCP_FLAG_DATA_END`. Both that constant and
  `UCP_FLAG_NACK` are 2, so a number is taken for the last one exactly when its save failed. The model
  keeps both readings, `AsWritten` and `Intended` (the `is_last` that was popped), as a parameter, and
  says which results hold for which. `Safety.AsWrittenNeverFinishes`: as written, with all saves
  successful, the server's loop never ends and no FIN is ever sent.
- A client that stops because it has nothing left to send can always trust the receiver's file
  (`Safety.RanOutMeansDelivered`). A client that stops on a FIN can not: `Dependability.AlwaysDeliveredIff`
  says for which settings, and no others, every stopped client can be trusted. `Safety.Dependable` is a
  condition on the setting alone. For every other setting `Dependability.UndependableFails` builds a run
  over the connection that ends with the client stopped and the file wrong. All this is for reads of whole
  packets; the next item is about other reads.
- `on_ack_received` takes the front of each read for a control packet, and its local packet is not
  initialised. If a read may be of any length, a stopped client can be trusted only with next to nothing
  (`SplitReads.AlwaysDeliveredByBytesIff`). If the local packet were zeroed, what remains harmful is a read
  that begins one byte into the ACK of a number k with k % 256 = 3: it is taken for a FIN
  (`SplitReads.SplitAckIsFinIff`), and `SplitReads.AlwaysDeliveredZeroedIff` has the exact condition, for
  which a partition of at most three packets is enough.
- `Dependability.FinPossibleIff` says when a FIN can be sent at all. In the intended reading that needs a
  packet marked END, and `src/file_io.c:71` marks none for a partition that fits one packet or whose size is
  a multiple of the packet size (`FileIO.ChunkFields`).
- `sequencer_add` does not record a fresh number that lies more than one below the head of its list;
  `Ranges.AddExact` has the exact rule, and `SequencerRuns.IndexRefinesSet` carries it over every series of
  calls: `SequencerRuns.RecordedIffAboveFloor` says which numbers are recorded, repeats included. Such a
  number is acknowledged all the same. `Safety.LoopEndsIff` says when the server's loop ends, in either
  reading: a complete file is not enough, and as intended it can take a second copy of a packet
  (`Safety.AllPoppedFinishesIff`).
- `maxSeqNo` is set back to the number marked last. As intended that is the greatest number, and the
  NACKs ask for exactly the gaps (`Safety.IntendedAsksForGaps`). As written a failed save sets it back, and
  gaps above the number that failed are not asked for (`Safety.AsWrittenAsksIff`,
  `Dependability.AsWrittenHidesGaps`).
- `sequencer_add` may leave two adjacent ranges unmerged and `sequencer_complete` merges two by two, so a
  caller that does not poll between adds can be told "not complete" about a complete set
  (`SequencerRuns.OnePollIsNotAlwaysEnough`). The server polls before each add, and for it the answer is
  exact (`SequencerRuns.ServerLoopCanonical`, `Safety.PollIsExact`).
- `last + 1` and `first - 1` wrap at 2^32. `Ranges.AddWellFormedIff` says for which lists and numbers the
  wrap corrupts the list, over all 32-bit numbers; chunk numbers never reach them (`FileIO.ChunkFields`).
- Lines 80-88 of `src/sequencer.c` can not be reached (`Ranges.MergeWithPreviousUnreachable`).
- `receiving_thread` does not look at what the decoder returns: after a datagram that decodes to nothing it
  saves and acknowledges the last packet again (`ServerSpec.UnknownTypeRepeats`).
- `LinkedListInit` leaves `num_members` alone and the server's queue is never zeroed; the model's list
  starts from whatever the memory held, and `LinkedLists.LinkedList.Length` is the length only when that
  was zero.
- `src/ucp_server.c:58-86` redefines the control senders of lines 31-55; the model follows lines 31-55.

## Model

| member | source | states |
|---|---|---|
| `Dependability.AlwaysDeliveredIff` | src/ucp_server.c:167-191 | a client that has stopped, by FIN or for lack of packets, leaves the receiver with the whole partition on every run if and only if saves cannot fail or the partition is of the named harmless kind; both readings of line 180; the same over the runs in order alone |
| `Dependability.UndependableFails` | src/ucp_server.c:149-185 | for every setting outside that condition there is a run in order that ends with the client stopped and the file different from the partition |
| `Dependability.FinPossibleIff` | src/ucp_server.c:177-185 | some run, and then some run in order, gets a FIN to the client if and only if, as written, a save can fail on a non-empty partition, or, as intended, the END packet is marked |
| `Dependability.AsWrittenMisleads` | src/ucp_server.c:153-180 | as written, a failed save of any chunk m after 0..m-1 leads, in order, to a FIN over a file that only has those |
| `Dependability.IntendedMisleads` | src/ucp_server.c:153-185 | as intended, a failed save that closes the last gap leads, in order, to a FIN over a file without that chunk |
| `Dependability.OrderlyTransferFinishes` | src/ucp_server.c:177-185 | as intended, with END marked, chunks saved in order lead, in order, to a FIN that stops the client with the file complete |
| `Dependability.RunningOutHappens` | src/ucp_client.c:149-194 | for every partition, in either reading, some run in order ends with a client that has stopped without a FIN, because every packet was acknowledged, and with the file complete |
| `Dependability.ServeChunk` | src/ucp_server.c:149-183 | one chunk through both threads: what becomes of file, queue and sequencer, saved or not |
| `Dependability.ServeNext` | src/sequencer.c:152-165 | a chunk that comes in order is answered by its ACK alone |
| `Dependability.ReadTwoAcks` | src/ucp_client.c:184-194 | of two ACKs in one read the second has no effect: its chunk stays with the client, which goes on sending |
| `Dependability.AsWrittenHidesGaps` | src/ucp_server.c:178-181 | as written: chunks 0 and h saved, then a failed save of a chunk m between them; on this run in order the gaps between m and h are not asked for |
| `Connection.RunIsExec` | src/tcp_socket.c:123-165 | every run in order is a run of the system, so what holds on every run holds on it |
| `Connection.ReadAll` | src/tcp_socket.c:123-165 | while some chunk read is unsaved and no FIN is out, the client reads all that was sent, oldest first, one read in a tick, and is still sending |
| `SplitReads.AlwaysDeliveredByBytesIff` | src/ucp_client.c:184-206 | if reads may cut the stream anywhere and the local packet may hold anything, a stopped client leaves the receiver with the partition on every run if and only if the partition is zeros, or saves cannot fail and it fits one packet |
| `SplitReads.AlwaysDeliveredZeroedIff` | src/ucp_client.c:184-206 | with the local packet zeroed, if and only if the setting is dependable over whole packets, and there are at most three packets, or the partition is zeros, or it has at most 259 packets and only packet 3 is not zeros |
| `SplitReads.SplitAckIsFinIff` | src/ucp_packet.c:135-146 | a read that begins one byte into the ACK of number k decodes as a FIN if and only if k % 256 = 3 |
| `SplitReads.MisreadOutcome` | src/ucp_packet.c:135-146 | with at most 259 packets, a read that begins anywhere inside a packet stops the client when number 3 is saved, or does nothing |
| `SplitReads.SplitReadStops` | src/tcp_socket.c:123-139 | the run: a chunk k with k % 256 = 3 arrives twice, one byte of its ACK is read, and the next read stops the client |
| `ByteStream.InOrderIsByBytes` | src/tcp_socket.c:123-139 | every run in order is a run over the byte stream with zeroed local packets |
| `ByteStream.ServerRunsAlone` | src/ucp_server.c:143-191 | whatever a client makes of the bytes, the server's side of the run is that of a run of the system, and the client still loses no packet |
| `Safety.DependableDelivers` | src/ucp_client.c:260-275 | end-to-end safety over all interleavings, losses, duplicates and reorderings |
| `Safety.RanOutMeansDelivered` | src/ucp_client.c:149-175 | if get_next_packet found nothing left, the receiver's file is the partition, failing saves or not |
| `Safety.NoChunkLost` | src/ucp_client.c:187-202 | in every reachable state a chunk that was read is still held by the client, or its bytes are in the receiver's file |
| `Safety.ThreadsAgree` | src/ucp_server.c:116-141 | the queue is first in first out, every ACK in it or through it is for bytes already in the file, and without failing saves so is every recorded number |
| `Safety.PollIsExact` | src/ucp_server.c:177-183 | on every run the set is the plain set of the numbers given to it, and a poll ends the loop exactly when it is {0..expected} |
| `Safety.IntendedAsksForGaps` | src/ucp_server.c:180-181 | as intended, on every run the NACKs are for exactly the unrecorded numbers below the greatest recorded one |
| `Safety.AsWrittenAsksIff` | src/ucp_server.c:180-181 | as written, that is so if and only if no gap lies above a number whose save failed; after such a number the NACKs are for exactly the unrecorded numbers below it |
| `Safety.LoopEndsIff` | src/ucp_server.c:177-183 | on every run, in either reading, failing saves or not: a poll ends the loop if and only if some item popped was passed on as last, the floor has come down to 0, and the numbers popped are 0 to that item's, in any order and any number of times |
| `Safety.AllPoppedFinishesIff` | src/ucp_server.c:177-183 | as intended, without failures and with END marked: once every number has been popped the file is complete, and the loop ends if and only if the floor has come down to 0; for numbers popped once each, if and only if none came more than one below all earlier ones (`Safety.OnceEachFinishesIff`) |
| `Safety.AsWrittenNeverFinishes` | src/ucp_server.c:177-185 | as written and with all saves successful the loop never ends and no FIN is on the wire |
| `Safety.FinNumber` | src/ucp_server.c:185 | on every run, if the FIN of x is on the wire then the loop has ended, x was popped as last and the numbers popped are exactly 0 to x; as intended x is the last chunk, as written it is the number whose save failed |
| `Safety.EndedMeansFin` | src/ucp_server.c:185 | on every run, once the loop has ended a FIN is on the wire |
| `Safety.NacksAscend` | src/sequencer.c:152-165 | the NACKs of one round go out in strictly ascending order, for exactly the numbers below maxSeqNo that are not in the set, and none while the set is empty |
| `Transcript.RunTold` | src/ucp_server.c:177-185 | on every run the control packets sent are, in this order and no others: for each number popped its ACK or NACK and then a NACK for each number that the plain set lacks below the greatest or last marked one, ascending; and after the loop the FIN of the number last marked |
| `Transcript.EverythingAnswered` | src/ucp_server.c:167-191 | from every reachable state the sequencing thread, left to itself, works off the queue, and what has then been sent is determined by the items pushed alone: the answers to those before the set is first complete and then the FIN, or, if it never is, the answers to all |
| `Safety.IntendedFinMeansAllPopped` | src/ucp_server.c:178-185 | as intended, a FIN means END was marked and saved, and every number went through the queue |
| `Safety.EveryReadStaysInside` | src/ucp_server.c:149-150 | on every run each delivered message, with any bytes behind it, decodes within the buffer and the packet structure |
| `Transfer.StepKeepsInv` | src/ucp_server.c:143-191 | every step of client, threads or channels keeps the system invariant |
| `Transfer.ExecInv` | src/ucp_server.c:143-191 | the invariant holds after every sequence of steps |
| `Transfer.SegmentDecodes` | src/ucp_client.c:184-186 | whatever the client reads decodes to a control packet the server sent, naming a chunk: an ACK only for a saved number, a FIN only after the loop and only for the expected number |
| `Transfer.AskedIsChunk` | src/sequencer.c:157-164 | on every state the invariant allows, what is asked for is the number of a chunk |
| `Transfer.DatagramDecodes` | src/ucp_server.c:149-151 | whatever the server reads decodes to the metadata packet or to the chunk of its number |
| `ClientSpec.EveryNumberInOnePlace` | src/ucp_client.c:149-211 | over every run each number below the read position is in hand, in flight, pending or acknowledged, in one place once, and the sizes add up to packet_count |
| `ClientSpec.StepConserves` | src/ucp_client.c:149-211 | every step keeps that law, and every packet kept is the chunk of its number, whatever control packets arrive |
| `ClientSpec.AckDrops` | src/ucp_client.c:187-194 | after an ACK of k, k is no longer in flight and is acknowledged if it was; every other number is where it was, and pending packets, read position, phase and `done` are as before |
| `ClientSpec.NackRequeues` | src/ucp_client.c:195-202 | after a NACK of k, k is no longer in flight and is pending if it was; every other number is where it was, and all else is as before |
| `ClientSpec.OthersMoveNothing` | src/ucp_client.c:186-210 | no other packet moves anything, and only a FIN makes the client done |
| `ClientSpec.FindPacket` | src/ucp_client.c:117-127 | the first packet with the number, or none has it |
| `Retransmission.PendingSentInTurn` | src/ucp_client.c:149-157 | a packet at pending position q goes out on the (q+1)-th send, whatever ACKs and NACKs come in between |
| `Retransmission.SendRotatesLine` | src/ucp_client.c:149-175 | pending packets, the rest of the file and the window form one line: each send takes its head and puts it at the end, and an empty line stops the client |
| `Retransmission.SentInTurn` | src/ucp_client.c:149-211 | a packet at position q of that line, whether pending, unread or in flight, is sent within q+1 sends, unless before that it is acknowledged, a NACK lets one from behind overtake it, or a FIN arrives |
| `Retransmission.InFlightResentInTurn` | src/ucp_client.c:166-172 | once the file is used up and nothing is pending, in-flight position q is sent again within q+1 sends, under those same exceptions; what answers the re-send itself, and NACKs without effect, are none |
| `Retransmission.QuietSendsReturn` | src/ucp_client.c:260-268 | n undisturbed sends send each of n packets in flight once, in order, and restore the window |
| `ClientHeap.Worker.GetNextPacket` | src/ucp_client.c:149-175 | refines `Fetch`: pending first, then the file, then the oldest in flight |
| `ClientHeap.Worker.FindElem` | src/ucp_client.c:117-127 | the walk from the sentinel finds the list element of the first packet with the number |
| `ClientHeap.Worker.Handle` | src/ucp_client.c:186-210 | refines `Respond` on the two lists and the flag; `ClientSpec.AckDrops`, `NackRequeues` and `OthersMoveNothing` say by counting what that is |
| `ClientHeap.Worker.OnAckReceived` | src/ucp_client.c:179-211 | decodes one control packet from the front of a read and refines `Respond` on it |
| `ClientHeap.Worker.Tick` | src/tcp_socket.c:123-165 | at most one read of at most 1024 bytes, handed on as a segment; refines the response to the packet decoded from it |
| `ClientHeap.Worker.SendLoop` | src/ucp_client.c:260-275 | for every script that gives the bytes each tick reads: the state is that of the run of events fetch, send, respond to the packet decoded from those bytes, end of tick, for as many ticks as there are datagrams, and of one more fetch if that stops the client; datagram i is the image of the packet fetched after i ticks; and if tick i reads a FIN, at most i + 1 datagrams go out and the client has stopped, with `done` if it was i + 1 |
| `ClientHeap.LoopIsEvents` | src/ucp_client.c:260-275 | a recursive run of rounds ends where the run of those events does, and unless the script is used up the client has stopped |
| `ClientHeap.SendsAreFetched` | src/ucp_client.c:260-268 | packet i that the rounds send is the one the client has in hand after the events of i ticks and one fetch |
| `ClientHeap.FinEndsLoop` | src/ucp_client.c:203-206 | a run of those events that handles a tick whose bytes begin with a FIN ends with that tick, stopped and done |
| `ServerHeap.Worker.Push` | src/ucp_server.c:116-124 | refines `Push`: the item at the tail of the queue |
| `ServerHeap.Worker.Pop` | src/ucp_server.c:126-141 | refines `Pop`: the head of the queue, or nothing |
| `ServerHeap.Worker.Receive` | src/ucp_server.c:149-162 | for every buffer: refines `Receive`, which decodes over the packet kept from before, saves, and chooses ACK or NACK; and exactly when the decoder runs past the packet, after which nothing is promised |
| `ServerSpec.UnknownTypeRepeats` | src/ucp_server.c:149-158 | a datagram that is too short or of no type makes the thread save the packet it saved last, and queue its number, a second time; after a metadata or control packet, or none, it changes nothing |
| `ServerHeap.Worker.Poll` | src/ucp_server.c:177 | refines `Poll` |
| `ServerHeap.Worker.SendCtrl` | src/ucp_server.c:179 | the bytes of the ACK or NACK for the number popped |
| `ServerHeap.Worker.Record` | src/ucp_server.c:180 | refines `Record` in either reading |
| `ServerHeap.Worker.SendNacks` | src/ucp_server.c:181 | the bytes of one NACK for each number below maxSeqNo that is not in the set, in strictly ascending order, and of no other |
| `ServerHeap.Worker.Finish` | src/ucp_server.c:185-188 | the bytes of the FIN, whose number `Safety.FinNumber` tells; the sequencer is destroyed and none of its ranges and list elements is live any more |
| `ServerHeap.Worker.CtrlSegment` | src/ucp_server.c:31-42 | the six bytes of a control packet |
| `Ranges.AddExact` | src/sequencer.c:35-109 | sequencer_add keeps the list sorted and disjoint, returns TRUE iff the number was absent and could be placed, and then the set grows by it and nothing else |
| `Ranges.AddSaysWhetherGrew` | src/sequencer.c:35-109 | where nothing wraps, TRUE iff some number is in the set afterwards that was not before, and iff the number was absent and could be placed |
| `Ranges.AddWellFormedIff` | src/sequencer.c:54-108 | over all 32-bit numbers, the list stays well formed if and only if no increment or decrement wraps into a false match |
| `Ranges.LowNumberDropped` | src/sequencer.c:55-108 | a number below the head's left neighbour falls through to FALSE and changes nothing |
| `Ranges.MergeWithPreviousUnreachable` | src/sequencer.c:78-88 | a walk that arrives at a position never finds the predecessor adjacent to the new number |
| `Ranges.ReachesMeansCalled` | src/sequencer.c:55-107 | a walk that gets to a position without returning is the walk sequencer_add makes |
| `Ranges.MergeFromIsPass` | src/sequencer.c:126-138 | the in-place loop of sequencer_complete is the recursive pass on the rest of the list |
| `Ranges.PassKeepsSet` | src/sequencer.c:126-138 | a pass keeps the list sorted and the set the same |
| `Ranges.PassFixesExactlyCanonical` | src/sequencer.c:126-138 | a pass changes nothing exactly when no two ranges are adjacent |
| `Ranges.CanonicalUnique` | src/sequencer.c:126-138 | there is one fully merged list for each set |
| `Polling.PassHalvesRuns` | src/sequencer.c:126-138 | a pass turns each run of k adjacent ranges into one of ceil(k/2) |
| `Polling.PollsConverge` | src/sequencer.c:126-138 | n calls merge everything if and only if no run is longer than 2^n, and keep the set |
| `Polling.PollsAgree` | src/sequencer.c:126-138 | once merged, further calls change nothing |
| `Polling.AddLeavesOneJoint` | src/sequencer.c:54-108 | an add on a fully merged list leaves at most one adjacent pair |
| `Polling.OnePassMendsOneJoint` | src/sequencer.c:126-138 | one pass is enough for such a list |
| `SequencerRuns.IndexRefinesSet` | src/sequencer.c:35-149 | over every series of adds and polls the list is sorted and stands for a plain set kept by a one-line rule |
| `SequencerRuns.AnswersExact` | src/sequencer.c:35-149 | over every series of adds and polls, each add answers TRUE iff the plain set grows with it, and each poll iff the set is {0..expected} and in at most two ranges |
| `SequencerRuns.ServerLoopCanonical` | src/ucp_server.c:177-183 | when polls and adds alternate, each poll leaves merged ranges and reports TRUE iff the set is {0..expected} |
| `SequencerRuns.CompleteIff` | src/sequencer.c:122-149 | for any sorted list, TRUE iff the set is {0..expected} and the list has at most two ranges |
| `SequencerRuns.CompletionSound` | src/sequencer.c:122-149 | for any caller, TRUE means the set is {0..expected} and that number was added as last before |
| `SequencerRuns.NeverBeforeLast` | src/sequencer.c:122-149 | before any number was added as last the answer is FALSE |
| `SequencerRuns.OnePollIsNotAlwaysEnough` | src/sequencer.c:126-138 | five adds without a poll, a complete set, and a first poll that says no |
| `SequencerRuns.SeqMissingExact` | src/sequencer.c:152-165 | the callback arguments are strictly ascending and exactly the absent numbers below maxSeqNo, and none if the set is empty |
| `SequencerRuns.MaxIsGreatestMember` | src/sequencer.c:38-43 | maxSeqNo is the greatest recorded number when none exceeds one marked last, though low numbers may be dropped |
| `SequencerRuns.MissingAreTheGaps` | src/sequencer.c:152-165 | then the segments asked for are exactly the unrecorded numbers below the greatest recorded one, whatever polls came in between |
| `SequencerRuns.MissingBelowLast` | src/sequencer.c:152-165 | when the last call marks a number last, the segments asked for are exactly the unrecorded numbers below it, and those are all gaps if and only if no gap lies above it |
| `SequencerRuns.LateLastHidesGaps` | src/sequencer.c:38-43 | 0, 5 and then 2 marked last: 1 is asked for, 3 and 4 are not |
| `SequencerRuns.RunAsksForGaps` | src/sequencer.c:152-165 | the same for every series of adds and polls from the start |
| `SequencerRuns.RecordedIffAboveFloor` | src/sequencer.c:35-109 | over every series of calls, repeats included, a number is recorded if and only if it came and is not below the floor: the first number, lowered by one each time its left neighbour comes |
| `SequencerRuns.CompleteUpToIff` | src/sequencer.c:122-149 | the set is {0..m} if and only if the floor has come down to 0 and the numbers that came are 0 to m |
| `SequencerHeap.Sequencer.Add` | src/sequencer.c:35-109 | refines `SeqAdd` on list, ranges and counters, for all 32-bit numbers; on a sorted list where nothing wraps the answer is TRUE iff the set has grown, iff the number was absent and could be placed |
| `SequencerHeap.Sequencer.Place` | src/sequencer.c:54-108 | the walk over the list refines `AddFrom` |
| `SequencerHeap.Sequencer.ExtendRight` | src/sequencer.c:57-72 | extends a range to the right and closes the gap to the next, freeing it |
| `SequencerHeap.Sequencer.ExtendLeft` | src/sequencer.c:74-89 | extends a range to the left |
| `SequencerHeap.Sequencer.Check` | src/sequencer.c:112-120 | TRUE iff some range covers the number |
| `SequencerHeap.Sequencer.Complete` | src/sequencer.c:122-149 | refines `SeqComplete` |
| `SequencerHeap.Sequencer.IterateMissing` | src/sequencer.c:152-165 | the callbacks are strictly ascending and for exactly the numbers below maxSeqNo that no range covers; none on an empty list |
| `SequencerHeap.Sequencer.Discard` | src/sequencer.c:66-70 | the range at that position leaves the list and is freed, with its element |
| `SequencerHeap.Sequencer.Free` | src/sequencer.c:69 | only a live range is freed; it is live no more, and nothing is known of its fields |
| `SequencerHeap.Sequencer.Destroy` | src/sequencer.c:168-174 | each live range and list element is freed, none is left, and none is freed that is not live |
| `SequencerHeap.Lifetime` | src/sequencer.c:11-174 | init, any series of adds and polls, destroy: each call has one answer, and below the sentinel the right one, as `SequencerRuns.AnswersExact` has it; and every range and list element allocated has been freed, once |
| `SequencerHeap.Sequencer.Init` | src/sequencer.c:11-21 | an empty list, counters zero, no last number yet |
| `LinkedLists.LinkedList.Init` | src/linked_list.c:269-274 | an empty ring, and num_members as the memory held it |
| `LinkedLists.LinkedList.Length` | src/linked_list.c:13-15 | the counter: the length only if it started from zero |
| `LinkedLists.LinkedList.Empty` | src/linked_list.c:22-27 | TRUE iff the sequence is empty |
| `LinkedLists.LinkedList.Append` | src/linked_list.c:36-60 | the object at the end of the sequence, on a fresh element spliced into a sound ring |
| `LinkedLists.LinkedList.Prepend` | src/linked_list.c:69-92 | the object at the front |
| `LinkedLists.LinkedList.Free` | src/linked_list.c:109 | only a live element is freed; it is live no more, and nothing is known of its fields |
| `LinkedLists.LinkedList.Unlink` | src/linked_list.c:99-110 | the object at that position taken out and its element, no other, freed; nothing on an empty list |
| `LinkedLists.LinkedList.UnlinkAll` | src/linked_list.c:118-129 | ends with an empty list and no element live; the successor is read before its predecessor is freed |
| `LinkedLists.LinkedList.InsertAfter` | src/linked_list.c:139-159 | the object right after the given element, or at the end |
| `LinkedLists.LinkedList.InsertBefore` | src/linked_list.c:169-188 | the object right before the given element, or at the front |
| `LinkedLists.LinkedList.First` | src/linked_list.c:195-200 | the element of the first object, NULL iff empty |
| `LinkedLists.LinkedList.Last` | src/linked_list.c:207-212 | the element of the last object, NULL iff empty |
| `LinkedLists.LinkedList.Next` | src/linked_list.c:220-225 | the element of the next object, NULL iff at the end |
| `LinkedLists.LinkedList.Prev` | src/linked_list.c:233-238 | the element of the previous object, NULL iff at the front |
| `LinkedLists.LinkedList.Find` | src/linked_list.c:246-262 | the element of the first occurrence, NULL iff there is none |
| `LinkedLists.LinkedList.SplicedIn` | src/linked_list.c:145-155 | the two link pairs an insertion writes keep the ring sound in both directions |
| `LinkedLists.LinkedList.SplicedOut` | src/linked_list.c:105-106 | the two links a removal writes keep the ring sound in both directions |
| `FileIO.PartitionReader.GetNextPacket` | src/file_io.c:61-76 | the next chunk in order, or NULL exactly when all have been read |
| `FileIO.ChunksTile` | src/file_io.c:61-76 | the payloads joined are the partition |
| `FileIO.ChunkFields` | src/file_io.c:68-74 | number, offset and length of chunk i, no wrap, START on the first only, END on the last only and only for sizes over one packet and not a multiple of it, SEGMENT on all others |
| `FileIO.SaveKeepsPicture` | src/file_io.c:98-109 | a save, whole or cut short by a failure, never spoils bytes, and a successful one makes its chunk correct |
| `FileIO.SaveExact` | src/file_io.c:98-109 | inside the file: TRUE iff seek, write and flush all went well, and then every byte of the payload is at its offset; otherwise a front part of it is; no other byte changes |
| `FileIO.WriteAnywhere` | src/file_io.c:101-103 | a write at any offset: the bytes written, the old ones elsewhere, zeros in a gap behind the end |
| `FileIO.ReassemblyExact` | src/file_io.c:98-130 | saving chunks in any order with repeats gives the partition's bytes on the chunks that came and zeros elsewhere |
| `FileIO.OutFile.SavePacket` | src/file_io.c:98-109 | refines `Saved`, with seek, short write and flush failures |
| `FileIO.OutFile.FillWithZeros` | src/file_io.c:119-129 | TRUE iff the space suffices, and the file is that many zeros |
| `Packets.RoundTrip` | src/ucp_packet.c:191-220 | decoding an image followed by any stale bytes gives back every field, for all three formats |
| `Packets.DecodedEncodes` | src/ucp_packet.c:191-220 | the other way round: what a buffer decodes to encodes to the front of that buffer, and a buffer that is too short for its type, or of no type, leaves the packet as it was |
| `Packets.WireFormat` | src/ucp_packet.c:60-170 | where each field lies on the wire and its value there: numbers least significant byte first in data and control packets, part_size most significant first |
| `Packets.ImagesPrefixFree` | src/ucp_packet.c:191-220 | no buffer can be read as two different packets |
| `Packets.Encode` | src/ucp_packet.c:191-203 | the image at the front of the buffer, the rest untouched, within the size checked; -1 or -2 and nothing written otherwise |
| `Packets.EncodeData` | src/ucp_packet.c:53-86 | the same for data packets |
| `Packets.EncodeCtrl` | src/ucp_packet.c:113-133 | the same for control packets |
| `Packets.EncodeMetadata` | src/ucp_packet.c:148-171 | the same for metadata packets, big-endian |
| `Packets.PacketCell.Decode` | src/ucp_packet.c:205-220 | for every buffer: the caller's packet afterwards, unchanged for a short buffer or an unknown type; and exactly when the copy runs past `segment_data`, after which nothing is promised |

## Left out

- Sockets, select, accept and connect are not modelled; the channels of `Transfer.dfy` stand for them.
- Splitting and merging files with `split` and `cat`, and the two unused readers with explicit offsets, are not modelled; a run starts from one partition given as bytes.
- Statistics, timing, argument parsing and logging are not modelled.
- The ten client threads share two unsynchronised lists and `done`; the model has one worker with its own lists.
- Thread creation, cancellation and joining are reduced to two loops whose steps interleave; the mutex makes push and pop one step each.
- Allocation always succeeds in the model.
- Transfer.StepKeepsInv: each control read begins at a control packet, and so do those of `Connection.dfy`; reads that begin elsewhere are the subject of `ByteStream.dfy` and `SplitReads.dfy` and keep less.
- LinkedLists.LinkedList.Length: the counter is an unbounded integer, so an overflow of `num_members` is not modelled.
- ClientHeap.Worker.SendLoop: runs for as many rounds as the script has ticks; that the transfer ends at all is not claimed, because it depends on what the channels deliver.
- Packets and queue items are values: the pointers to them, and the packets the client never frees, are not modelled. Ranges and list elements are heap objects.
- SequencerHeap.Sequencer.Destroy: the release of the sequencer's own header, and the reuse of freed memory, are not modelled.
- Packets.PacketCell.Decode: the union's overlay of one packet kind on another, and the bytes of `segment_data` behind the payload, are not modelled; what a copy past `segment_data` does to the memory behind it is unknown, and `Safety.EveryReadStaysInside` shows that none happens.
- The creation of metadata packets from a file name is not modelled; a run starts with the metadata packet on the wire and the receiver's file created from its size.

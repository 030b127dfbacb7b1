# ATOM-OS in Dafny

A model of the algorithmic parts of the ATOM-OS kernel, with proofs of what they promise. State that the C code
changes in place is a class whose methods are proved against functions on values; what spans several operations,
or whole runs, is stated as lemmas about those functions.

| files | part of the kernel |
|---|---|
| `Basics` | what all parts share |
| `Packets`, `Transmitter`, `Assembler`, `Protocol`, `StreamSocket` | the packet transport: cutting packets into windows of frames, acknowledgements, reassembly, stream reads |
| `TransportSafety`, `TransportWindows` | what every run of the transport guarantees |
| `TransportProgress` | what gets the transport on: acknowledgements, repeated packets, retransmission, a network without losses |
| `TransportRuns`, `TransportLimits` | runs of the transport, step by step, and runs that break a guarantee |
| `PageRuns`, `CoreMemory`, `KernelHeap`, `Segments` | the page allocator, the byte allocator on top of it, page tables and segments |
| `FatTable`, `FatVolume`, `FatFiles` | the packed FAT12 table, cluster chains, files |
| `DirectorySlots`, `Directories`, `Handles` | directories over chains of blocks, the table of open files and directories |
| `Timers`, `TimerRuns` | the delta-encoded timer queue, and its interleavings with the clock |
| `Scheduling`, `Locks` | ready queues, dispatch and ageing; locks, events and lending of priorities |

## How the parts are modelled

**Transport.** Senders, receiver and network form a state machine over all runs. The network may lose, duplicate,
delay and reorder every frame and acknowledgement ever sent. Each source has one transmitter, packets are not empty
and go to one host, ids start at 1 and are never reset, and the destination exists. The class `SendPacket` refines the
sender's part of the machine and `Host` the receiver's, including its hashed table of last packets. Whether the receiver
gets memory for a slot and for a table entry is an input of every arriving frame (`Memory`). A queued acknowledgement
that is overwritten in place keeps an outdated checksum (base/socket.c:1233-1241); for the model that is a lost
acknowledgement.

The packet is not locked while its window is filled (base/socket.c:851-903), so an acknowledgement may be handled between
any two reads of its current position. `Work` therefore has a step for each of them: setting the window position, comparing
what is left with a full frame, taking what is left as the size, reading the offset, advancing. `BuildOne` and `BuildWindow`
are the loop left undisturbed, which `RoundBuildsFrame` ties to the steps. Handling an acknowledgement is one step.

After the last try of a window that is not the packet's last one, the code takes the packet off its socket and goes on with
its window loop (base/socket.c:943-987). The loop is then an `Orphan`: it keeps cutting frames out of the same record, gets
no acknowledgements, and in the end takes the packet off its socket again. Its memory is free at once if the send does not
block, and otherwise once the sender has woken up (`SenderFrees`); from then on it may be given to somebody else (`Reuse`).
A run is `tainted` by such a reuse, and when an orphaned loop puts another packet at the head of its socket's queue than the
one that is there. The exactness results hold for all runs that are not tainted, packets given up early included;
`GivingUpEarlyBreaksExactness` shows that they do not hold beyond.

What the transport is for is said in both directions. An acknowledgement ends a transmission only if the packet has been
delivered (`CompletionMeansAssembled`), and it does end it (`CompletingAckEnds`); where each kind of acknowledgement leads
the sleeping transmitter is stated without `ProcessAck` (`WindowAcknowledged`, `PartAcknowledged`, `RestartRequested`).
`From` relates a state to the states that steps lead to from it: `LostAckIsRepaired` and `GoodNetworkDelivers` say that from
every state of a kind there are steps to an end of the transmission, and what exactly that state is.

**Memory.** The free list is a sequence of runs of pages. `Canonical` says that it is sorted, disjoint and coalesced;
`CanonicalUnique` says that such a list is determined by its pages, which is why a failed allocation restores the very
same list. Segments live in page tables that are themselves pages of the allocator, and in small records of the byte
allocator, which shares the pages with it: `AllPages` is everything the two have.

When an allocation succeeds is a function of the lists before it. `Most` is how many pages a number of runs can have at
most (`MostIsMost`), and `CoreAllocN` succeeds exactly if that is enough. The state of the byte allocator is a `Store`:
`CanAlloc` says whether it can give a block, and `Allocated` what it is then; `CanCreate` and `LeavesStale` follow it
through the record, the page tables and the pages of a segment.

The code takes the lock of the free list for each fragment only (base/vmmap.c:1290-1328), and the model takes a whole
allocation as one step. That a failed one restores the identical list, and the exact conditions of success, therefore hold
if nobody else uses the allocator in between. That no page is lost or given out twice holds of each fragment by itself
(`CoreAlloc`, `CoreFree`).

**FAT12.** The table is the packed byte array of the file allocation table described in the Microsoft FAT32 File System
Specification 1.03; `Packs` ties it to the sequence of its 12-bit entries. The disk is a sequence of 512-byte blocks in
place of the buffer cache, and blocks are always read and written without error. Each owner of a chain stores the bytes
along it, and every operation says what happens to the bytes of its own owner and that no other owner's bytes change.
`imgcopy/fs.c` repeats the table code of `base/fat12.c`, so directories use the same volume. The root directory's
fourteen blocks are clusters -12 to 1, as in the code. The table covers as many clusters as the disk has blocks, 31 more
than it has blocks for; a chain that got one of them is `Stranded`.

**Timers.** `TimerQueue` is the queue as the code keeps it; `Agenda` is the list of deadlines it stands for. In
`TimerRuns` the clock interrupt may fall between any two steps of a thread, as it counts the first timer down without
the lock of the queue. A timer's count is set before the lock is taken. Putting a timer in front is then three steps:
comparing it with the first one, taking its count off the first one's, making it the first one. Behind the first timer
an insertion is one step, as the clock touches only the first one's count and the loop reads that once, when it takes it
off the new one's. Taking the first timer out is two steps, as its count is added to the next one's after the link is
changed. `Plan` is the agenda with a timer that is about to be put in front. An expiry pass is a sequence of steps;
while it takes timers off, the clock interrupt still counts down the timer that was first when the pass began.

**Threads and locks.** Every section with interrupts off is one atomic step of the current thread. `Lock` and `RLock`
are one attempt; a thread that was put to sleep makes another one when it runs again. A thread that blocks leaves the
processor with `Reschedule`. A ghost log of acquisitions and releases gives locks a meaning of their own: `Replay` computes
the holder of a lock from the history alone.

A wakeup by the clock declares a thread ready before it puts it into a bucket, with interrupts on (base/process.c:1376-1387,
base/timer.c:655). It is two steps, `BeginWakeup` and `FinishWakeup`, and `marked` is the set of threads in between. `Valid`
allows for them, and holds before and after each operation, hence in every interleaving, but for one case: a thread that
blocks and lends its priority to a marked thread. `Lock` and `RLock` say exactly when that is (`Reaches`) and what the
buckets are then (`Upset`). What the second step does to the links of the bucket afterwards is not modelled.

`unlock` resets an inherited priority after interrupts are on again (base/lock.c:217-221). In the model that is a step of
its own, `DropInherited`, which may be taken whenever the thread runs: a thread that owns nothing is lent nothing, so
nothing that happens before it changes what it finds. `Unlock` joins the two.

## Conventions of the proofs

Many predicates are written `var ok := ...; ok`. A predicate that is a plain conjunction is taken apart wherever it is used,
into as many facts and goals; behind a local variable it stays one fact, which is unfolded where a proof needs its parts.
For the same reason what holds of all chains, of all owners' bytes, of all packed entries and of all slots of a directory is a
recursive predicate (`ChainsOk`, `Stored`, `Packs`, `Listed`), with a pair of lemmas that lead to the statement with a
quantifier and back (`ChainsUnfold` and `ChainsFold`, and so on).

## Where the code does less than one would expect

Each has a lemma or a contract with the exact condition.

- A request to restart from the beginning that arrives while a window is being filled misaligns the window, and a partial acknowledgement then names the wrong frame (`AckKeepsAlignedIff`, `MisalignedWindowHappens`).
- If it arrives with the size of the packet's last frame in hand, the first frame is cut with that size (`AckKeepsRegularIff`, `TornPacketHappens`), and the reader skips a byte (`TornPacketSkipsAByte`).
- A packet completed while an older one of its source is under assembly lets packets be delivered twice (`StepKeepsOrderIff`, `OutOfOrderCompletionRepeatsAPacket`), and so does a completion there is no memory to record (`ForgottenPacketIsRepeated`).
- A partial acknowledgement of a window's second try makes the transmitter give the packet up, although the receiver is there (`PartAcknowledged`, `RetryQueuesTheRest`).
- A packet given up before its last window goes on being cut from memory that may belong to somebody else (`GivingUpEarlyBreaksExactness`).
- A reader gets nothing once the peer has closed, even if bytes are queued (`RecvStream`).
- `core_alloc` passes over an exact fit behind the first block that suffices (`BestFitIff`, `ExactFitPassedOver`).
- A failed segment creation leaves the page directory pointing to free pages, if any page table was made (`CreateSegment` with `LeavesStale`, `StaleDirectory`).
- A segment whose region does not start on a page boundary is mapped one page too high (`RegionMappedIff`); a page mapped beyond its tables is lost (`CreateThenDestroy`, `LostPage`).
- A write at offset 0 of a non-empty file puts its first 512 bytes into the second cluster, and the bytes after them over that (`WriteIsOverwriteIff`, `WriteAtZeroMisses`).
- `alloc_block12` also hands out clusters that are not on the disk, once those on the disk are used up (`AllocBlock12`, `FirstFree`, `ClusterBeyondDisk`).
- `next_cluster_12` returns an unsigned 16-bit number, so it is of no use for the root directory's blocks but the last three (`NextCluster12`).
- A tick during an expiry pass is lost for the queued timers (`LostTickDelays`, `QueueIsExact`).
- A tick while a timer is put in front of the queue can make it later than the one behind it, which is then due and not ended (`StepKeepsSortedIff`, `SlippedTickHidesADueTimer`).
- A thread that lends its priority to one whose wakeup is half done empties a bucket: the threads in it are ready and will not be dispatched (`LendPriority`, `TrampledLoses`, `LenderUpsets`).
- The scheduler does not compare the running thread with the one it chooses (`GivesWayOnce`).
- Within a bucket the thread of least cost is chosen, so round robin holds among threads of equal cost (`Rotate`), and a thread that costs more than two others is not dispatched while these are ready (`Alternate`).
- A tick can make the owner of a lock weaker than a thread that waits for the lock (`TickInverts`, `Tick`).

## Model

| member | source | states |
|---|---|---|
| Transmitter.SendPacket.BuildOne | base/socket.c:859-902 | one round of the window loop, undisturbed, fills the next buffer as the sender's specification cuts the next frame |
| Transmitter.RoundBuildsFrame | base/socket.c:859-902 | the steps of an undisturbed round, taken one by one, add up to the round |
| Transmitter.SendPacket.BuildWindow | base/socket.c:851-908 | filling the buffers is the window-filling function of the specification |
| Transmitter.SendPacket.Launch | base/socket.c:926-941 | a try queues exactly the buffered frames from the start frame on, in order |
| Transmitter.SendPacket.ProcessAckFrame | base/socket.c:1348-1399 | an acknowledgement changes the packet in transmission as the specification says |
| Transmitter.FilledWindow | base/socket.c:859-902 | a filled window carries exactly the next bytes of the packet, up to eight frames of them |
| Assembler.Host.PktIndex | base/socket.c:277-291 | the slot found is the first one with this id and source |
| Assembler.Host.AllocPktIndex | base/socket.c:180-233 | the first free slot starts an empty assembly; without one, or without memory, nothing changes |
| Assembler.Host.LocateHashNode | base/socket.c:298-312 | the node found is the one entry of the table for that source; none is found exactly if the source is not remembered |
| Assembler.Host.AddHashNode | base/socket.c:314-339 | a new node in the right bucket makes the table remember one more source; without memory it remembers what it did |
| Assembler.Host.UpdateHashNode | base/socket.c:1492-1496 | overwriting a node in place makes the table remember the new id for that source only |
| Assembler.Host.RecordCompletion | base/socket.c:1489-1496 | completing a packet makes its id the last one of its source; only a new source without memory is forgotten |
| Assembler.Host.Integrate | base/socket.c:1449-1520 | handling a frame of a packet under assembly is what the receiver's specification says, acknowledgements and delivery included |
| Assembler.Host.PacketTypeData | base/socket.c:1402-1521 | handling any data frame is what the receiver's specification says |
| Assembler.Host.RemovePkt | base/socket.c:265-275 | the assembly timer drops one partial packet and nothing else |
| Protocol.WorkOk | base/socket.c:851-963 | wherever a restart falls between two steps of the transmitter, its positions stay within the packet and every frame says what the packet says |
| Protocol.StepKeepsInv | base/socket.c:833-1521 | every step of senders, orphaned loops, receiver and network keeps the invariant of the whole system |
| Protocol.RunKeepsInv | base/socket.c:833-1521 | the invariant holds after every run that is not tainted |
| Protocol.ExtendOk | base/socket.c:1455-1470 | an assembly extended by the frame it expects is again an exact prefix of the packet sent |
| Protocol.ReceiveOk | base/socket.c:1402-1521 | what a frame makes the receiver hold, acknowledge and deliver agrees with the packets sent |
| TransportSafety.AssembledBytesAreExact | base/socket.c:1449-1508 | in every run that is not tainted, what is held of a packet is exactly a prefix of what its source sent, and what is delivered is all of it, whatever interrupts the filling of windows |
| TransportSafety.CompletionMeansAssembled | base/socket.c:1383-1396 | an acknowledgement that completes a transmission comes only after the receiver delivered exactly that packet |
| TransportProgress.WindowAcknowledged | base/socket.c:944-968 | an acknowledgement of all bytes of the window makes the sleeping transmitter leave if it is the last one, and open the next one otherwise |
| TransportProgress.PartAcknowledged | base/socket.c:944-961 | an acknowledgement of some bytes makes it queue the frames from the one named on after its first try, and give the packet up after its second |
| TransportProgress.RestartRequested | base/socket.c:1360-1378 | a request to restart is obeyed twice and ends the transmission as timed out the third time |
| TransportProgress.CompletingAckEnds | base/socket.c:944-987 | in every run that is not tainted, an acknowledgement of the whole packet ends the transmission behind its last window, with no time-out reported and no loop left |
| TransportProgress.DuplicateIsAnswered | base/socket.c:1412-1433 | a frame of a completed packet changes nothing and is answered with an acknowledgement of all its bytes |
| TransportProgress.RepeatedPacketIsAcknowledged | base/socket.c:1412-1433 | over runs, these are all the bytes its source sent, and nothing is delivered again |
| TransportProgress.LostAckIsRepaired | base/socket.c:944-1433 | in every run with completions in order, any frame of a delivered packet leads the transmitter that waits for its acknowledgement to its end |
| TransportProgress.RunKeepsBuffers | base/socket.c:859-902 | in every run the frame buffers hold frames of the packet in transmission that have been sent |
| TransportProgress.RetryQueuesTheRest | base/socket.c:926-961 | in every run without a misaligning restart, a partial acknowledgement makes the next try queue exactly the bytes from the acknowledged offset to the current position |
| TransportProgress.GoodNetworkDelivers | base/socket.c:833-1521 | from every state with a packet queued and the receiver ready for it, steps without a loss lead to its delivery, once and exactly, and to the end of its transmission without a time-out, and nothing else changes |
| TransportWindows.AckKeepsRegularIff | base/socket.c:861-901 | an acknowledgement keeps the frame in the making of the right size exactly unless it restarts the packet with another frame's size in hand |
| TransportWindows.RunKeepsRegular | base/socket.c:851-901 | in every run without such restarts all frames sent and delivered are full but for the last, and acknowledgements name frames |
| TransportWindows.AckKeepsAlignedIff | base/socket.c:1360-1397 | an acknowledgement keeps the window aligned exactly unless it restarts the packet when something of the window is done, step by step |
| TransportWindows.RunKeepsAligned | base/socket.c:851-965 | in every run without such restarts all windows start at multiples of eight frames |
| TransportWindows.PartialAckNamesItsFrame | base/socket.c:1384-1389 | in these runs the start frame a partial acknowledgement installs is the buffered frame at the acknowledged offset |
| TransportLimits.MisalignedWindowHappens | base/socket.c:1366-1389 | in another run, of nine frames, a partial acknowledgement installs a frame at another offset |
| TransportLimits.TornPacketHappens | base/socket.c:861-901 | in another run a packet is delivered in frames of the wrong sizes |
| TransportSafety.CompletesIff | base/socket.c:1412-1500 | a frame delivers a packet exactly if it is the last one its slot waits for, or a whole new packet that finds a slot |
| TransportSafety.ReceiveKeepsOrderIff | base/socket.c:1412-1500 | a frame keeps the order of packets exactly unless it completes one, and that is recorded, past an older one of the same source |
| TransportSafety.StepKeepsOrderIff | base/socket.c:1412-1500 | a step keeps the order and the memory of all that was delivered exactly if it completes in order and can record it |
| TransportSafety.HistoryFollowsDelivery | base/socket.c:1483-1500 | the table of last packets changes only on delivery, and to a newer id |
| TransportSafety.DeliveredIdsIncrease | base/socket.c:1412-1500 | if all completions are in order and recorded, each source's packets are delivered with strictly increasing ids |
| TransportLimits.OutOfOrderCompletionRepeatsAPacket | base/socket.c:1412-1500 | a run in which a packet completed past an older one is delivered a second time |
| TransportLimits.ForgottenCompletionRepeatsAPacket | base/socket.c:314-339 | a completion that is not recorded leaves the receiver ready to deliver the packet again |
| TransportLimits.ForgottenPacketIsRepeated | base/socket.c:314-339 | a run in which a packet of one frame is sent once and delivered twice |
| TransportLimits.GivenUpEarly | base/socket.c:910-987 | a packet of nine frames and two timeouts, with the send blocking or not: the loop goes on with a packet whose memory is free |
| TransportLimits.GivingUpEarlyBreaksExactness | base/socket.c:957-987 | when that memory is given to somebody else, a packet is delivered that ends in a byte its source never sent |
| StreamSocket.Socket.Deliver | base/socket.c:1663-1738 | a delivered packet is queued behind the others, all its bytes pending |
| StreamSocket.Socket.CopyFrame | base/socket.c:2112-2130 | one round of the copy loop returns the next bytes of a packet made of frames and leaves the rest |
| StreamSocket.Socket.CopyFrames | base/socket.c:2110-2131 | copying from a packet made of frames returns its next bytes and leaves the rest, over any number of frames |
| StreamSocket.Socket.CopyOut | base/socket.c:2102-2131 | copying from a packet, contiguous or made of frames, returns its next bytes and leaves the rest |
| StreamSocket.Socket.Drain | base/socket.c:2096-2142 | a read returns as many pending bytes as fit, in order, over any number of packets |
| StreamSocket.Socket.RecvStream | base/socket.c:2060-2147 | what was read so far followed by what is pending is always everything that arrived; the cases of no data and of a closed peer |
| StreamSocket.DeliveredPacketReadsAsSent | base/socket.c:1490-1508 | in every run without a tearing restart, reading a delivered packet gives the bytes its source sent |
| StreamSocket.TornPacketSkipsAByte | base/socket.c:2112-2130 | out of a packet in frames of the wrong sizes a byte is never read |
| StreamSocket.Serve | base/socket.c:1663-2147 | however packets and readers come together at a socket, what was queued there is what was handed over for it, in order |
| StreamSocket.StreamReadsAsSent | base/socket.c:2060-2147 | over whole runs, what is read from a socket that got what was handed over for it is a beginning of what its source sent under the ids delivered, in increasing order |
| StreamSocket.ServeRun | base/socket.c:1663-2147 | the same of every history of packets and readers at the socket, from an empty one on |
| PageRuns.CanonicalUnique | base/vmmap.c:1330-1402 | a sorted, disjoint and coalesced list is determined by its set of pages |
| PageRuns.TakeOk | base/vmmap.c:1258-1279 | taking pages off a block leaves a canonical list without exactly those pages |
| PageRuns.InsertOk | base/vmmap.c:1350-1399 | linking a run and merging it with its neighbours leaves a canonical list with exactly those pages more |
| PageRuns.TakeThenInsert | base/vmmap.c:1205-1402 | giving back what was taken restores the very same list |
| CoreMemory.BestFitIff | base/vmmap.c:1228-1256 | the block chosen is a smallest sufficient one exactly if no exact fit is passed over |
| CoreMemory.ExactFitPassedOver | base/vmmap.c:1228-1256 | a list on which an exact fit is passed over |
| CoreMemory.ChosenIsLongest | base/vmmap.c:1228-1256 | the block chosen gives as many of the pages asked for as any block can |
| CoreMemory.Core.IsValidBlock | base/vmmap.c:1461-1480 | a block is valid exactly if it is not empty and starts in usable memory |
| CoreMemory.Core.ChooseBlock | base/vmmap.c:1228-1256 | the search settles on the block its rule singles out |
| CoreMemory.Core.CoreAlloc | base/vmmap.c:1205-1285 | exactly the pages returned leave the free list, as many as asked for or the longest block; block and list are functions of the list before |
| CoreMemory.PickIsChosen | base/vmmap.c:1228-1256 | the block picked by following the search is the one its rule singles out |
| CoreMemory.MostRound | base/vmmap.c:1297-1311 | one more fragment takes what is left to take, or the longest block whole |
| CoreMemory.MostIsMost | base/vmmap.c:1290-1328 | no choice of so many blocks has more pages than taking the longest one each time |
| CoreMemory.Core.FindMemBlockBefore | base/vmmap.c:1404-1416 | the place of a block in the sorted list |
| CoreMemory.Core.Link | base/vmmap.c:1350-1399 | linking a block is the insertion function of the canonical list |
| CoreMemory.Core.CoreFree | base/vmmap.c:1330-1402 | exactly the pages given are added; a block outside usable memory is refused |
| CoreMemory.Core.Rollback | base/vmmap.c:1302-1306 | giving the fragments of an unfinished allocation back restores the identical list |
| CoreMemory.Core.CoreAllocN | base/vmmap.c:1290-1328 | all pages in disjoint fragments, exactly if so many blocks have enough; otherwise failure with the identical free list |
| KernelHeap.Heap.InsertAvailNode | base/vmmap.c:1522-1595 | the available list stays sorted and coalesced and gains exactly the block |
| KernelHeap.Heap.CreateMemListNode | base/vmmap.c:1620-1663 | there is a list node exactly if not all are in use or a page is left; it may cost that page, and no page is lost |
| KernelHeap.Heap.ChooseAvail | base/vmmap.c:1679-1701 | the block found is a smallest sufficient one; none is found exactly if none suffices |
| KernelHeap.Heap.Refill | base/vmmap.c:1703-1730 | a refill adds just as many new pages as the size calls for, exactly if there are so many in one block and a list node for them; otherwise nothing changes |
| KernelHeap.Heap.HandOut | base/vmmap.c:1732-1760 | the bytes handed out leave the available list, join the used one and overlap no live block; it fails exactly without a list node |
| KernelHeap.Heap.Kmalloc | base/vmmap.c:1665-1765 | when allocation succeeds and what the lists are then, as a function of the lists before; the block is disjoint from every live one, comes from a best fit before or after a refill, and all pages are conserved |
| KernelHeap.Heap.Kfree | base/vmmap.c:1767-1799 | the block returns to the available list; an unknown address changes nothing |
| KernelHeap.Handed | base/vmmap.c:1732-1760 | moving a block to the used list keeps the partition of the acquired pages |
| KernelHeap.GivenBack | base/vmmap.c:1767-1799 | moving a block back keeps the partition of the acquired pages |
| Segments.Vm.ReleaseFrames | base/vmmap.c:793-838 | the run-grouping loop gives every mapped frame of a page table back exactly once |
| Segments.Vm.ReleaseTable | base/vmmap.c:793-844 | the frames of a page table and the table's own page become free |
| Segments.Vm.DestroySegment | base/vmmap.c:780-849 | exactly the frames and page-table pages a segment holds become free, and its records leave the used list |
| Segments.Vm.ExpandPageTables | base/vmmap.c:245-300 | every directory slot of the range gets an empty table and each table a record, exactly while pages and records last; on failure the tables made so far and their records are all that was taken |
| Segments.Vm.MapFragment | base/vmmap.c:755-770 | the pages of a fragment are mapped in order, and no other entry changes |
| Segments.Vm.MapFragments | base/vmmap.c:751-771 | the k-th page maps to the k-th frame over all fragments |
| Segments.Vm.MapAll | base/vmmap.c:751-771 | a last page beyond the segment's tables is lost, and all others are mapped in order |
| Segments.Vm.CreateSegment | base/vmmap.c:701-778 | exactly when it succeeds, and exactly when a failure leaves page tables in the directory, said of the free lists before; every page mapped has a frame of its own, and the segment holds exactly the pages and records taken, but for a page beyond its tables; on failure all pages and records are back |
| Segments.Foretold | base/vmmap.c:245-778 | what the page tables, made one after the other, took is what the conditions on the lists before say |
| Segments.StaleDirectory | base/vmmap.c:701-778 | a kernel of three free pages after a failed creation: the directory points to a free page |
| Segments.Vm.Undo | base/vmmap.c:780-849 | destroying a segment restores the pages and records from before its creation |
| Segments.Vm.CreateThenDestroy | base/vmmap.c:701-849 | creating a segment and destroying it leaves the same records, the same pages but for one beyond its tables, and the identical free list if the byte allocator kept no page |
| Segments.LostPage | base/vmmap.c:701-849 | a kernel of two thousand free pages, of which one is lost when a segment is created and destroyed |
| Segments.RecordsDropped | base/vmmap.c:839-847 | freeing the records of a segment undoes their allocation |
| Segments.HeldUpdate | base/vmmap.c:759-766 | setting an entry exchanges one held frame for another |
| Segments.RegionMappedIff | base/vmmap.c:751-771 | the mapping covers the region exactly if the region starts on a page boundary |
| Segments.AlignedIsCovered | base/vmmap.c:718-723 | the page tables made for an aligned region cover all pages that get mapped |
| FatTable.SetThenGet | base/fat12.c:141-170 | a 12-bit entry that was set reads back exactly |
| FatTable.SetElsewhere | base/fat12.c:141-170 | setting an entry is invisible at every other entry |
| FatTable.SetRefinesUpdate | base/fat12.c:141-156 | setting an entry of the packed table updates the sequence of entries it holds |
| FatTable.ChainExtended | base/fat12.c:172-192 | linking a free cluster behind a chain keeps all chains well formed and disjoint |
| FatTable.ChainFreed | base/fat12.c:399-410 | freeing a chain keeps all other chains |
| FatTable.ChainShortened | base/fat12.c:370-397 | dropping one cluster behind the first keeps all chains well formed and disjoint |
| FatVolume.StoredPatched | base/fat12.c:668-690 | writing into a block of one owner overwrites that owner's bytes and nobody else's |
| FatFiles.Volume.constructor | base/fat12.c:115-120 | a volume whose table and blocks hold given chains and bytes is well formed |
| FatFiles.EmptyTable | base/fat12.c:158-170 | a table of zero bytes holds just free entries |
| FatFiles.Volume.GetClval12 | base/fat12.c:158-170 | reading the packed table gives the entry |
| FatFiles.Volume.SetClval12 | base/fat12.c:141-156 | writing the packed table updates just that entry |
| FatFiles.Volume.NextCluster12 | base/fat12.c:122-139 | the successor of a cluster as an unsigned 16-bit number, the root directory's blocks included |
| FatFiles.Volume.AllocBlock12 | base/fat12.c:172-192 | the first free cluster is taken and terminated, 0 exactly if there is none; it is on the disk exactly if a free cluster is |
| FatFiles.Volume.FreeClusterChain | base/fat12.c:399-410 | exactly the entries of the chain are cleared, and its owner stores nothing |
| FatFiles.Volume.DeleteClusterFromChain | base/fat12.c:370-397 | the cluster leaves its chain and is free, its owner loses just that block, and other chains are untouched |
| FatFiles.Volume.ExtendChain | base/fat12.c:713-727 | a chain grows by one cluster at its end, or the volume is full and nothing changes, or the cluster lies beyond the disk |
| FatFiles.Volume.Write | base/fat12.c:638-758 | where every byte goes, at offset 0 of a non-empty file too; otherwise the file is overwritten at the offset, without space by exactly a prefix; a write beyond the disk; no other owner's bytes change |
| FatFiles.Volume.Read | base/fat12.c:587-636 | reading is slicing the file's bytes |
| FatFiles.Volume.Trunc | base/fat12.c:910-922 | the file is empty, its clusters are free, nothing else changes |
| FatFiles.OverwriteReadsBack | base/fat12.c:587-758 | after overwriting, the written range reads as written and the rest as before |
| FatFiles.LandedStep | base/fat12.c:653-755 | one more round of the write loop puts the next bytes where the specification of the whole write wants them |
| FatFiles.WriteIsOverwriteIff | base/fat12.c:653-728 | for every buffer, a write is an overwrite exactly unless it is at offset 0 of a non-empty file and does not repeat what is there |
| FatFiles.WriteAtZeroMisses | base/fat12.c:653-728 | a write that leaves the file as it was |
| FatFiles.FirstFree | base/fat12.c:172-192 | the first free cluster lies beyond the disk exactly if all free ones do |
| FatFiles.ClusterBeyondDisk | base/fat12.c:172-192 | a volume of 2880 blocks whose clusters are taken in turn, until one is not on the disk |
| DirectorySlots.SameIff | imgcopy/fs.c:578-579 | comparing raw slots with a proper name finds just the used slot of that name |
| DirectorySlots.ListedAdd | imgcopy/fs.c:480-490 | filling a free slot adds one entry to the map of names |
| DirectorySlots.ListedRemove | imgcopy/fs.c:585-588 | marking a slot deleted removes one entry from the map of names |
| DirectorySlots.ListedReplace | imgcopy/fs.c:748-756 | overwriting a slot of the same name replaces one entry of the map of names |
| DirectorySlots.SlotWritten | imgcopy/fs.c:487-495 | writing one slot of a block changes just that slot of the directory |
| DirectorySlots.SlotsFewer | imgcopy/fs.c:636-660 | dropping a block drops just its slots |
| Directories.Directory.Scan | imgcopy/fs.c:385-454 | a scan over all blocks stops at the first slot wanted, or has seen all |
| Directories.Directory.Find | imgcopy/fs.c:298-317 | finding an entry is looking the name up in a finite map |
| Directories.Directory.Add | imgcopy/fs.c:455-549 | adding is insertion into the map unless the name is there, into the first free slot or a new last block; the exact conditions for a full root, a full table and a block beyond the disk; no other slot, directory or file changes |
| Directories.Directory.Grow | imgcopy/fs.c:517-541 | a directory without a free slot grows by a block that holds just the new entry, if one on the disk is free |
| Directories.Directory.Delete | imgcopy/fs.c:555-633 | deleting is removal from the map, and changes nothing if the name is not there; just its slot is marked, and its block leaves the chain and is free exactly if it held no other entry; no other directory or file changes |
| Directories.Directory.DropIfEmpty | imgcopy/fs.c:592-603 | the block leaves the chain and its cluster is free exactly if no slot of it is used, and the map stays |
| Directories.OperationsKeepTight | imgcopy/fs.c:455-787 | adding, deleting and updating leave no block behind the first without an entry |
| Directories.Directory.Update | imgcopy/fs.c:726-787 | updating replaces the entry of that name and no other slot, or finds none |
| Handles.HandleTable.AllocSlot | imgcopy/fs.c:789-800 | the first slot that is not used, or none exactly if all are |
| Handles.HandleTable.Walk | imgcopy/fs.c:1269-1299 | exactly the slots on the way to the root are counted, and the walk ends |
| Handles.HandleTable.Increment | imgcopy/fs.c:1269-1275 | another handle keeps all counts exact |
| Handles.HandleTable.Decrement | imgcopy/fs.c:1277-1299 | closing a handle keeps all counts exact and frees just the slots without handles |
| Handles.HandleTable.Open | imgcopy/fs.c:255-291 | opening puts an entry into a slot of its own below its directory and gives one handle out |
| Handles.HandleTable.Step | imgcopy/fscalls.c:117-156 | one component of a path: where it leads, and exactly when it fails |
| Handles.HandleTable.OpenPath | imgcopy/fscalls.c:99-162 | following a path gives out one handle on success, on the place the path leads to, and none on failure; it fails exactly if the path leads nowhere or at some name has as many names open below the start as slots were free |
| Handles.SlotsLeft | imgcopy/fs.c:1269-1299 | the free slots are those no other handle holds, less those on the way of the last handle |
| Handles.OwnOpened | imgcopy/fs.c:255-291 | a name takes one slot and the other handles hold what they held |
| Handles.CountsAreExact | imgcopy/fs.c:1269-1299 | each count is the size of the set of handles on the slot and below; a free slot is nobody's parent |
| Timers.SortedIff | base/timer.c:101-143 | the deadlines are sorted exactly if no count behind the first is negative |
| Timers.InsertMovesNone | base/timer.c:101-143 | inserting enters the deadline and moves no other, in whatever order the queue is |
| Timers.InsertRefines | base/timer.c:101-143 | in a sorted queue it enters the deadline behind all that are not later |
| Timers.RemoveRefines | base/timer.c:145-159 | removing takes one deadline out and moves no other |
| Timers.TickRefines | base/timer.c:416-421 | counting down the first timer brings all deadlines nearer by a tick |
| Timers.TimerQueue.Insert | base/timer.c:101-143 | the loop finds the place and the count of the specification |
| Timers.TimerQueue.Stop | base/timer.c:193-214 | a timer is taken out if it is queued, and the other deadlines stay |
| Timers.TimerQueue.Tick | base/timer.c:416-421 | a tick moves no deadline, and notices that the first one has come |
| Timers.TimerQueue.Expire | base/timer.c:633-666 | a pass ends exactly the timers whose deadline has come, in order |
| TimerRuns.StepKeepsInv | base/timer.c:101-666 | every step, the clock between any two of them, keeps each deadline at the time asked for plus the ticks that did not count, and the queue sorted up to the ticks that slipped |
| TimerRuns.StepKeepsSortedIff | base/timer.c:101-666 | a step keeps the queue sorted exactly unless it is a tick that makes a timer about to be put in front later than the first one |
| TimerRuns.StepKeepsOrderIff | base/timer.c:101-666 | a step keeps timers of equal deadlines in the order they came exactly unless it is a tick that makes such a timer as late as the first one |
| TimerRuns.RunKeepsOrder | base/timer.c:101-666 | in every run without such ticks timers are queued by deadline, and of equal ones first come first |
| TimerRuns.NeverEarly | base/timer.c:101-666 | in no run does a timer end before the time it was started for |
| TimerRuns.QueueIsExact | base/timer.c:101-666 | in every run each queued timer is due at the time asked for plus exactly the ticks it missed, earliest first up to the ticks that slipped |
| TimerRuns.DueIsNoticed | base/timer.c:416-421 | after a tick that finds the first count whole, a timer due by as many ticks as slipped has an expiry pass under way or to come |
| TimerRuns.PassEndsTheDue | base/timer.c:633-666 | a pass ends timers from the front on, each when due; in a sorted queue exactly those that were due or became so by ticks that counted |
| TimerRuns.PassEndsInOrder | base/timer.c:633-666 | in every run without overtaking ticks a pass ends timers by deadline, and of equal ones first come first |
| TimerRuns.LostTickDelays | base/timer.c:633-666 | a run in which a tick during a pass leaves a timer late |
| TimerRuns.SlippedTickHidesADueTimer | base/timer.c:113-119 | a run in which a due timer is queued behind one that is not |
| Scheduling.ReadyQueues.AddReady | base/process.c:652-680 | a thread joins the end of the bucket of its priority, and all buckets stay right |
| Scheduling.ReadyQueues.DelReady | base/process.c:681-707 | a ready thread leaves its bucket and the order of the others stays; others are not found; one that is in no bucket yet empties the bucket of its priority |
| Scheduling.TrampledLoses | base/process.c:652-707 | the threads that were in the emptied bucket are in none, the others keep theirs, and the thread taken for the only one is in one |
| Scheduling.ReadyQueues.Select | base/timer.c:475-488 | the choice within a bucket is the first thread of least cost |
| Scheduling.ReadyQueues.Schedule | base/timer.c:460-541 | the thread dispatched is from the highest bucket that is not empty, and leaves it; the one preempted is last in its own; threads that can run are conserved |
| Scheduling.ReadyQueues.Rotate | base/timer.c:472-541 | round robin: of threads that share the first bucket and cost the same, the one n places on runs after n switches, for every n |
| Scheduling.ReadyQueues.Alternate | base/timer.c:478-488 | a thread that costs more than two others of its bucket is not dispatched in any number of switches |
| Scheduling.GivesWayOnce | base/timer.c:472-505 | when the running thread gives way to one of a later bucket, and that it is dispatched next then |
| Scheduling.ReadyQueues.AgeBucket | base/timer.c:584-612 | each thread of a bucket gains four if it has waited for more than three seconds and two otherwise, up to its class maximum, and joins the right bucket, in order |
| Scheduling.ReadyQueues.AgePass | base/timer.c:578-615 | one pass lets each ready thread outside the last bucket gain so just once; every bucket then holds its own that stay, and behind them those that rose from the next |
| Scheduling.ReadyQueues.AgeRepeatedly | base/timer.c:578-615 | any number of passes: what a thread that stays ready has gained, and when it has its class maximum |
| Scheduling.GainsAtLeast | base/timer.c:592-594 | passes add up to at least two each, which bounds the number a thread needs |
| Scheduling.ReadyQueues.Charge | base/timer.c:338-353 | a tick charges the running thread and lowers it at most to its class minimum |
| Scheduling.ReadyQueues.MarkReady | base/process.c:1376-1382 | a woken thread is raised at most to its class maximum and declared ready, and the buckets stay right but for it |
| Scheduling.ReadyQueues.Enqueue | base/process.c:1383 | it joins the end of the bucket of its priority, and all buckets are right |
| Locks.Kernel.WakeAll | base/lock.c:202-206 | all waiters of an object become ready, join their buckets first come first, and leave its queue, and nothing else changes |
| Locks.Kernel.TryLock | base/lock.c:139-164 | the lock is taken exactly if it is free |
| Locks.Kernel.LendPriority | base/lock.c:72-95 | the walk ends on every chain, never meets a lock without owner, and raises as the lending function says; a ready thread it raises goes to the end of its new bucket; the buckets are right afterwards exactly if it raises no thread whose wakeup is half done |
| Locks.ReachesIff | base/lock.c:72-95 | the walk meets such a thread exactly if lending changes one |
| Locks.Kernel.Lock | base/lock.c:97-136 | a free lock is taken; for a held one the thread waits and its priority is lent; exactly when queues and locks are right afterwards |
| Locks.Kernel.Unlock | base/lock.c:191-223 | the owner's unlock frees the lock and makes all waiters ready, first come first; a thread that owns nothing then has no inherited priority; others change nothing of it |
| Locks.Kernel.RLock | base/lock.c:226-273 | the owner gets the lock once more; otherwise as for a plain lock |
| Locks.Kernel.RUnlock | base/lock.c:279-320 | one level less, and the last level frees the lock |
| Locks.Kernel.EventSleep | base/lock.c:374-431 | the lock is free and the thread is in the event's queue, in one step; without owning the lock nothing happens |
| Locks.Kernel.EventWakeup | base/lock.c:345-368 | every thread asleep on the event is ready, first come first, and the queue is empty |
| Locks.Kernel.Reschedule | base/timer.c:460-541 | handing the processor on keeps all locks and queues right, and puts the preempted thread last in its bucket |
| Locks.Kernel.Tick | base/timer.c:338-353 | a tick keeps owners as strong as their waiters exactly if no waiter's priority is one the running thread loses to at the end of its time slice |
| Locks.Kernel.Age | base/timer.c:578-615 | ageing raises the threads that wait as stated, and leaves no owner weaker than a waiter |
| Locks.Kernel.TimedSleep | base/timer.c:231-234 | a thread that goes to sleep for a time leaves locks and queues right |
| Locks.Kernel.BeginWakeup | base/process.c:1376-1382 | declaring a thread that sleeps for a time ready leaves locks and queues right but for it |
| Locks.Kernel.FinishWakeup | base/process.c:1383 | putting it into its bucket leaves locks and queues right |
| Locks.Kernel.TimedWakeup | base/process.c:1376-1387 | both, if no other thread runs in between |
| Locks.LenderUpsets | base/process.c:1376-1387 | a run of four threads after which a ready thread is in no bucket, and one that is still to be put into a bucket is in one |
| Locks.WakeOne | include/lock.h:123-133 | taking the first waiter off a queue keeps each sleeping thread in just the queue it sleeps on |
| Locks.FallAsleep | include/lock.h:113-120 | going to sleep puts a thread at the end of just one queue |
| Locks.TakeOk | include/lock.h:135-140 | taking a lock puts it into just its owner's list |
| Locks.GiveUpOk | include/lock.h:142-150 | giving a lock up takes it out of its owner's list |
| Locks.Exclusive | base/lock.c:97-223 | in a history that is not broken, two threads' acquisitions of a lock have the first one's release between them |
| Locks.HistoryIsExclusive | base/lock.c:97-320 | the history of every state the kernel reaches is of that kind |
| Locks.LendingSuffices | base/lock.c:72-95 | if no owner was weaker than a waiter, lending along the chain makes that so again after a thread blocks |
| Locks.WholeChain | base/lock.c:72-95 | then no owner on a chain of waiting threads is weaker than any thread that waits for it |
| Locks.OwnerIsRaised | base/lock.c:81-87 | the owner of the object waited for gets the lender's priority |
| Locks.LosesToIff | base/timer.c:338-353 | the priorities and the rest of the time slice at which a tick takes a thread below a priority |
| Locks.TickInverts | base/timer.c:338-353 | a run of two threads and one lock after which the owner is weaker than the waiter |

## Left out

- Device drivers, interrupts and direct memory access, paging hardware, context switching: hardware effects.
- The buffer cache: blocks are read and written directly.
- The transmit queue of the network card, removal of frames from it, and merging of queued acknowledgements: for the model they only lose or delay frames.
- Broadcast, connection set-up and close, deletion of sockets, reset and wrap-around of packet ids.
- Growing, shrinking and copying of memory regions, and start-up of the memory lists: the model starts from a well-formed free list.
- Segments that end in the last four megabytes of the address space, where the loop over page tables wraps around.
- Removal of files and directories, renaming, and lookups by path in `base/fat12.c`.
- Long names, names whose first byte marks a free slot or stands for such a mark, dates, and the update of a parent's entry when a directory is closed.
- Timed sleep on events, semaphores, barriers, suspension and termination of threads, and unlocking on behalf of another thread.
- The flag that asks for rescheduling, and accounting of processor time.
- Shell, system-call dispatch, loading of programs, string and date functions.
- Directories.Directory.Delete: in a directory other than the root the first block must hold an entry of another name, because the walk to the block before the first one does not end; the entries `.` and `..` see to that.
- Segments.Vm.CreateSegment: the directory slots of the pages it maps have no page tables yet; and without memory for the segment's record it fails, where the code goes on at address 0.
- TransportWindows.AckKeepsAlignedIff: an acknowledgement is handled in one step, although the filling loop could also run between two assignments of its handler.
- Protocol.RunKeepsInv: nothing is said about a run once it is tainted, that is once an orphaned loop reads memory given to somebody else or changes the head of its socket's queue.
- FatFiles.Volume.Write: the offset lies within the file, as seeking guarantees.
- Locks.Kernel.FinishWakeup: nothing is said of the second half of a wakeup once a lender has reached the thread, because the links of its bucket are then no list any more.
- Timers.TimerQueue.Insert: counts are integers without the 32-bit range of the code.

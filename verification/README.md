# A verified model of the UDT transport and the Kademlia node

This project models the two protocols of the repository in Dafny and proves
what they promise.

**The UDT transport (`udt4/`).** One sender and one receiver exchange data
packets, full and lite acknowledgements, confirmations of acknowledgements and
loss reports over a network that loses, duplicates and reorders. The project
is built in layers:

- `SeqNo` is the 31-bit sequence-number arithmetic, with the distances for
  which it agrees with plain integers. Unbounded numbers are ghost; `Wrap(n)`
  is what a field or a packet holds.
- `SndLossList` and `RcvLossList` are the two loss lists in their arrays,
  proved against the set of numbers they stand for. `LossIntervals` holds the
  shape of such a list and the lemmas about changing it. `LossReport` is the
  coding of a loss report.
- `SndBuffer` is the ring of send blocks with the memory buffers behind them,
  `RcvBuffer` the circular receive buffer in stream mode, `AckWindow` the
  record of acknowledgements sent.
- `Messages`, `MessageSafety`, `MessageRuns` and `MsgBuffer` are the receive
  buffer in message mode: the rules over unbounded numbers, what they promise
  over all runs, what that means for the messages handed over, and the
  circular array that follows the rules.
- `Transport` says what each protocol handler does to one end, over unbounded
  numbers. `SenderEnd` and `ReceiverEnd` are the two ends as the program keeps
  them, with wrapped numbers, loss-list arrays and buffers; each of their
  methods is proved to do what the handler does.
- `TransportHandlers` says what each handler achieves, in numbers, bytes and
  windows and without reference to how it is defined.
- `TransportSafety` is about the safety of whole runs of a sender, a receiver
  and the network, `TransportLag` about how far the last confirmed
  acknowledgement lags behind, and `TransportProgress` and `TransportSilence`
  about when the two ends can still finish and when they are stuck for ever.
- `Connection` joins the two wrapped ends with the network: each of its methods
  does a step of such a run.
- `SendHeap` and `TimerList` are the scheduler heap and the timer list,
  `Md5` the streaming part of MD5 (RFC 1321).

**The Kademlia node (`src/`).**

- `NodeId` are identifiers as byte vectors: XOR distance, comparison, bits,
  sums in place.
- `RoutingTrie` are the operations of the routing table on a trie of buckets,
  `RoutingSafety`, `RoutingGrowth`, `RoutingBounds`, `RoutingClosest`,
  `RoutingExact` and `RoutingOrders` what they keep and promise, and
  `RoutingNode` the linked nodes that split in place.
- `Nearest` is the bounded list of nearest contacts, `Lookup` the iterative
  lookup as a state machine in which several lookups share contacts and the
  list of requests; `LookupSafety`, `LookupBounds` and `LookupEnds` are about
  its runs, `LookupAsks` about whom a lookup asks and how many at a time, and
  `LookupObjects` has the objects that change in place.

`Arith`, `Sets` and `Streams` are small helpers.

## How to read the proofs

Every handler of the program is one atomic step. Where the program keeps
state in objects and arrays, so does the model; a method there ends in a
clause that equates the new abstract state with a function of the old one, and
what is promised is proved about these functions over all runs. Ghost
parameters such as `n` in `ProcessFullAck(ack, window, n)` are the unbounded
numbers behind the wrapped ones; `Recent` says that they lie within a quarter of
the number circle of the receiver's or sender's own. `Connection` shows that
they do: there the only assumption is that a message arrives at most a quarter
of the circle late (`Arrives`). The last confirmed acknowledgement may lag
without bound, so `Transport` compares with it as the program does, after
wrapping.

Some properties one would expect are false of the code. They are stated with
the exact condition and with a concrete failing input:

- Removing an entry keeps the scheduler heap in order exactly if the last
  entry is not earlier than its new parent (`SendHeap.RemoveOrdersIff`,
  failing input `SendHeap.RemoveCanDisorder`); rescheduling keeps it under the
  same condition (`SendHeap.RescheduledOrders`, failing input
  `SendHeap.RescheduleCanDisorder`).
- `update` fits the array exactly unless that is full and the socket is not
  scheduled, because only `insert` makes the array grow
  (`SendHeap.RescheduledFits`, failing run `SendHeap.UpdatesCanOverflow`).
- The search over the table gives exactly the nearest contacts, in whatever
  order the buckets have theirs, if and only if at most one is still wanted in
  the last bucket it visits or that has room for all its live ones
  (`RoutingOrders.ClosestExactIff`, failing run for every bucket size from three
  on `RoutingOrders.ClosestCanMiss`).
- A bucket by itself gives exactly the nearest contacts, in whatever order it
  has them, if and only if at most one is wanted or there is room for all
  (`RoutingExact.PickExactIff`; `RoutingExact.PickMisses` finds the failing
  order of any other bucket).
- A lookup with nothing outstanding has completed, except when it was started
  with nobody who may be asked, or when its last reply brought a new contact
  and left nobody who may be asked (`LookupEnds.SilentIff` over all runs, from
  `LookupEnds.StartEnds`, `LookupEnds.ResponseEnds` and
  `LookupEnds.TimeoutEnds`; failing inputs `LookupEnds.StartCanHang` and
  `LookupEnds.LookupCanHang`).
- A lookup that completes at a reply has nobody left to ask exactly if nobody
  was left before that reply (`LookupEnds.ResponseExhausts`; failing runs for
  every parallelism `LookupEnds.CompletesUnasked`).
- A read finds a message exactly if one may be read, except while the only
  packet sits at the acknowledged position (`MessageSafety.ReadFindsIff`,
  failing run `MessageSafety.ReadMissesLone`).
- The length of a stretch of numbers fits 32 bits except for one full turn
  (`SeqNo.LenFitsInt32`, failing inputs `SeqNo.LenCanOverflow`).
- The two ends can finish, even if the network loses all it holds, exactly if
  nothing is left to release or a number that can still become the first missing
  one counts as later than the last confirmed acknowledgement
  (`TransportSilence.CanFinishIff`). They always can while less than 2^30 - 1
  numbers are unconfirmed (`TransportProgress.NeverStuck`). With more, the
  wrapped comparison takes new acknowledgements for old ones and the receiver
  falls silent (`TransportLag.AnnouncesIff`); when every confirmation is lost, a
  run gets there and the sender is stuck for ever (`TransportSilence.Deadlock`).

Where comments of the repository and its code disagree, the model follows the
code: the comment at `src/KadNodeId.h:279` promises an exponent one larger
than `DistanceTo` returns, and the branch of `scanMsg` for messages larger
than the buffer (`udt4/src/buffer.cpp:643-649`) makes `readMsg` return
nothing, not a part.

## Model

| member | source | states |
|---|---|---|
| SeqNo.CmpSign | udt4/include/udt/common.h:222-223 | inside the half window the wrapped comparison has the sign of the true difference |
| SeqNo.CmpSignStands | udt4/include/udt/common.h:222-223 | the same against a field that holds "one before the initial number", which is -1 when that number is 0 |
| SeqNo.AheadIff | udt4/include/udt/common.h:222-223 | at any distance below a full turn: a later number compares as later exactly inside the half window, and at three distances beyond it if the circle closes in between |
| SeqNo.OffExact | udt4/include/udt/common.h:228-238 | inside the half window the wrapped offset is the true difference |
| SeqNo.OffExactIffInWindow | udt4/include/udt/common.h:228-238 | an offset is recovered at every place of the number circle if and only if it is below the threshold |
| SeqNo.LenExact | udt4/include/udt/common.h:225-226 | the wrapped length counts the numbers from the first to the last, within one turn |
| SeqNo.LenFitsInt32 | udt4/include/udt/common.h:225-226 | a length is positive and fits a signed 32-bit result except for a full turn |
| SeqNo.LenCanOverflow | udt4/include/udt/common.h:225-226 | the two full turns whose length does not fit |
| SeqNo.IncExact | udt4/include/udt/common.h:240-241 | incrementing a wrapped number wraps the successor |
| SeqNo.DecExact | udt4/include/udt/common.h:243-244 | decrementing a wrapped number wraps the predecessor |
| SeqNo.WrapInjective | udt4/include/udt/common.h:219-244 | numbers less than a turn apart wrap to the same value only if equal |
| SndLossList.SndLossList.Insert | udt4/src/list.cpp:85-255 | the recorded set grows by exactly the range given, the list stays well formed, and the result is the number of new members |
| SndLossList.SndLossList.Remove | udt4/src/list.cpp:257-366 | exactly the numbers above the given one stay |
| SndLossList.SndLossList.GetLostSeq | udt4/src/list.cpp:376-418 | returns and removes the least number recorded, or -1 from an empty list |
| SndLossList.SndLossList.Coalesce | udt4/src/list.cpp:218-252 | swallowing the nodes a new interval reaches changes no member and ends in disjoint intervals with the right count |
| LossIntervals.AbsorbNext | udt4/src/list.cpp:218-252 | one swallowed node keeps the set, the invariant of the loop and the count |
| RcvLossList.RcvLossList.Insert | udt4/src/list.cpp:453-499 | a range above all recorded numbers is added, links in both directions stay right |
| RcvLossList.RcvLossList.Remove | udt4/src/list.cpp:501-629 | removes any single number, by shifting, shrinking or splitting a node; tells whether it was there; the backward search for the node ends |
| RcvLossList.RcvLossList.Find | udt4/src/list.cpp:649-667 | true exactly if some recorded number is the first or lies in the range |
| RcvLossList.RcvLossList.GetFirstLostSeq | udt4/src/list.cpp:674-680 | the least recorded number, or -1 |
| RcvLossList.RcvLossList.GetLossArray | udt4/src/list.cpp:682-703 | writes the code of an ascending, downward closed part of the set, never beyond the limit, and of the whole set when that has fewer numbers than the limit or words remain |
| LossIntervals.Shape.LinksAreInverse | udt4/src/list.cpp:453-629 | next and prior of a well-formed list are inverse to each other |
| LossReport.RoundTrip | udt4/src/core.cpp:2115-2151 | decoding a coded report gives the wrapped ranges it was made of |
| LossReport.WordsAtMostNumbers | udt4/src/list.cpp:682-703 | a report never has more words than the numbers it names |
| LossReport.CoversNames | udt4/src/list.cpp:682-703 | a report of the intervals below some point names a downward closed part of the recorded numbers |
| Streams.ChunksFlatten | udt4/src/buffer.cpp:120-164 | cutting data into blocks loses no byte, and no block is empty or too long |
| Streams.ChunkAt | udt4/src/buffer.cpp:139-147 | block i is the bytes from i times the block size on |
| Streams.ChunksCount | udt4/src/buffer.cpp:122-124 | the number of blocks is the length over the block size, rounded up |
| SndBuffer.SndBuffer.constructor | udt4/src/buffer.cpp:47-92 | the new blocks form one cycle and have disjoint parts of the first memory buffer |
| SndBuffer.SndBuffer.AddBuffer | udt4/src/buffer.cpp:120-164 | the payloads grow by the cut data, with the message fields of one message; the ring grows as needed and stays one cycle; the bytes are copied into the blocks' own parts of memory and into nobody else's |
| SndBuffer.SndBuffer.ReadNext | udt4/src/buffer.cpp:217-230 | gives the first payload never sent, if any, and counts it as sent |
| SndBuffer.SndBuffer.ReadAt | udt4/src/buffer.cpp:232-266 | gives the payload so many places after the first one kept |
| SndBuffer.SndBuffer.AckData | udt4/src/buffer.cpp:268-278 | exactly the first payloads are released, the ring only turns |
| SndBuffer.SndBuffer.Increase | udt4/src/buffer.cpp:285-342 | the ring grows by one unit of blocks in mid-stream, with a new memory buffer whose parts do not overlap any other block's, without touching what is buffered |
| SndBuffer.SndBuffer.Spliced | udt4/src/buffer.cpp:321-330 | a line of new blocks spliced into a cycle gives one cycle |
| SndBuffer.SndBuffer.DisjointSpliced | udt4/src/buffer.cpp:321-339 | blocks with parts of a new buffer, spliced into a ring, leave the parts of all blocks disjoint |
| SndBuffer.EvenlyPlaced | udt4/src/buffer.cpp:332-339 | parts cut off a buffer one after the other lie inside it and do not overlap |
| SndBuffer.SndBuffer.CopyKeeps | udt4/src/buffer.cpp:139-147 | writing into one block's part changes the data of no other block |
| RcvBuffer.RcvBuffer.AddData | udt4/src/buffer.cpp:374-389 | a packet is stored in its slot unless one is there |
| RcvBuffer.RcvBuffer.AckData | udt4/src/buffer.cpp:467-475 | the acknowledged position moves on, nothing else changes |
| RcvBuffer.RcvBuffer.ReadBuffer | udt4/src/buffer.cpp:391-426 | returns the next bytes of the acknowledged packets, from the middle of a packet if the last read stopped there, and frees what is used up |
| RcvBuffer.RcvBuffer.GetRcvDataSize | udt4/src/buffer.cpp:483-489 | the distance from the start to the acknowledged position around the array |
| RcvBuffer.RcvBuffer.GetAvailBufSize | udt4/src/buffer.cpp:477-489 | the free slots but one, also when the positions wrap |
| AckWindow.AckWindow.Store | udt4/src/window.cpp:70-81 | records an acknowledgement, forgetting the oldest when full |
| AckWindow.AckWindow.Acknowledge | udt4/src/window.cpp:83-143 | finds the oldest entry with the number, forgets it and all older ones, also when the live entries wrap |
| AckWindow.StoredRecent | udt4/src/window.cpp:70-81 | recording keeps the most recent entries, as many as there is room for |
| AckWindow.AcknowledgedRest | udt4/src/window.cpp:83-143 | a confirmation forgets exactly the entries up to the one it names, an unknown one none |
| SenderEnd.SenderEnd.Send | udt4/src/core.cpp:1101-1121 | takes all bytes, or as many as fill the buffer to its limit, never beyond it, and hands them over as the abstract sender does |
| SenderEnd.SenderEnd.PackData | udt4/src/core.cpp:2259-2340 | does what `TransportHandlers.NewPacketIff` and `ResendsFirst` are about: the least lost packet first, which is always still buffered, else a new one if both windows are wider than what is unacknowledged |
| SenderEnd.SenderEnd.ProcessLiteAck | udt4/src/core.cpp:1958-1969 | a lite acknowledgement moves the acknowledged number and takes the same amount off the window, also when it is for numbers never sent; the sender stays well formed otherwise |
| SenderEnd.SenderEnd.ProcessFullAck | udt4/src/core.cpp:1971-2026 | refuses the impossible, grants the window, releases blocks and losses together |
| SenderEnd.SenderEnd.ProcessNak | udt4/src/core.cpp:2103-2159 | decodes a loss report word by word and records what `TransportHandlers.NakRecords` says, up to the first impossible entry |
| SenderEnd.SenderEnd.Expire | udt4/src/core.cpp:2612-2640 | after silence everything in flight is recorded as lost, unless losses wait already |
| ReceiverEnd.ReceiverEnd.ProcessData | udt4/src/core.cpp:2405-2443 | stores, detects loss, reports it in the coded form, fills gaps; the buffer slots and the loss list stay complementary and an insertion always lies above the list |
| ReceiverEnd.ReceiverEnd.SendLiteAck | udt4/src/core.cpp:1733-1755 | carries the first number missing, unless that is confirmed already |
| ReceiverEnd.ReceiverEnd.SendFullAck | udt4/src/core.cpp:1733-1829 | acknowledges up to the first number missing, grants at least two packets, records what it sent; says nothing when that does not count as later than what was confirmed |
| ReceiverEnd.ReceiverEnd.ProcessAck2 | udt4/src/core.cpp:2077-2101 | a number used recently confirms its acknowledgement, if that is recorded and counts as later than the last one confirmed; any other number does nothing |
| ReceiverEnd.ReceiverEnd.Recv | udt4/src/core.cpp:1124-1209 | reads what the abstract receiver reads, across packet boundaries |
| ReceiverEnd.AcknowledgedBoth | udt4/src/window.cpp:83-143 | the wrapped acknowledgement number finds the entry the unbounded one would |
| TransportSafety.DeliveredIsPrefix | udt4/src/core.cpp:2259-2444 | at every moment of every run the bytes read are a prefix of the bytes handed over |
| TransportSafety.ReleasedWasReceived | udt4/src/core.cpp:1984-2027 | no block is released that the receiver does not hold, or has not delivered |
| TransportSafety.NeverBroken | udt4/src/core.cpp:1987-2159 | between conforming ends the branches for impossible acknowledgements and loss reports are unreachable |
| TransportSafety.CountersOrdered | udt4/src/core.cpp:1954-2159 | the order of all protocol counters on both ends, around the receiver's first missing number |
| TransportSafety.WindowsBounded | udt4/src/core.cpp:2273-2290 | everything in flight and in the loss lists lies in one window, and one buffer slot stays empty |
| TransportSafety.BufferMatchesLossList | udt4/src/core.cpp:2405-2441 | from the acknowledged to the largest number received, a packet is in the buffer exactly if it is not recorded as lost |
| TransportSafety.ArrivalsAcceptable | udt4/src/core.cpp:1954-2159 | whatever is in flight meets what the two ends demand of an arriving number, save being recent |
| TransportSafety.InFlight | udt4/src/core.cpp:1954-2159 | the range in which the numbers of every message in the network lie |
| TransportSafety.StepKeeps | udt4/src/core.cpp:1727-2444 | every step of either end or delivery of any message keeps the invariant and moves no counter back |
| TransportHandlers.NakRecords | udt4/src/core.cpp:2103-2159 | a report of numbers that were sent records exactly those in its ranges not yet acknowledged, keeps all recorded before, and changes nothing else |
| TransportHandlers.NakBreaksIff | udt4/src/core.cpp:2115-2151 | any report breaks the connection if and only if one of its entries is for numbers not sent or the wrong way round |
| TransportHandlers.ReportDelivered | udt4/src/core.cpp:2103-2159 | in every run, after a report is delivered, a number is to be resent exactly if it was before or is reported and not yet acknowledged |
| TransportHandlers.SendsNewIff | udt4/src/core.cpp:2306-2325 | with nothing lost, a packet goes out if and only if a block was never sent and what is unacknowledged is below the congestion window and the flow window |
| TransportHandlers.NewPacketIff | udt4/src/core.cpp:2259-2325 | the same in every run, and after a new packet what is unacknowledged is at most either window |
| TransportHandlers.ResendsFirst | udt4/src/core.cpp:2270-2304 | with something lost, the least number lost goes out with its bytes, whatever the windows are |
| TransportHandlers.ExpireRecords | udt4/src/core.cpp:2612-2640 | after silence exactly the unacknowledged numbers are to be resent, unless something is already |
| TransportHandlers.FullAckForgets | udt4/src/core.cpp:1984-2014 | a full acknowledgement forgets the losses before it and no other |
| TransportHandlers.LiteAckMoves | udt4/src/core.cpp:1958-1969 | the acknowledged number moves up and never back, and the right edge of the window stays |
| TransportHandlers.TakenIff | udt4/src/core.cpp:2405-2415 | a packet is taken if and only if it is not acknowledged, not held, and the buffer has a slot with one left over |
| TransportHandlers.GapReported | udt4/src/core.cpp:2417-2443 | a report is sent exactly if the packet leaves a gap, names exactly the gap, and that is what becomes lost; a packet that fills a gap is lost no more |
| TransportHandlers.LiteIff | udt4/src/core.cpp:1744-1755 | in every run a lite acknowledgement is sent exactly if the lag is positive, and carries the first number missing |
| TransportHandlers.FullGrants | udt4/src/core.cpp:1763-1801 | in every run the full acknowledgement lets all that arrived without a gap be read, announces that, and grants what the buffer has room for, at least two |
| TransportHandlers.ConfirmationMoves | udt4/src/core.cpp:2077-2101 | in every run a confirmation moves the last confirmed number to what its acknowledgement carried, if that is recorded, was sent earlier and is inside the half window; one sent no earlier moves nothing, one not recorded changes nothing |
| TransportHandlers.ReadAmount | udt4/src/buffer.cpp:391-426 | in every run a read goes on by as many bytes as wanted, or up to the end of what is acknowledged |
| TransportLag.LagBelowTurn | udt4/src/core.cpp:1793-1793 | the first missing number is always less than a full turn ahead of the last confirmed one |
| TransportLag.StepKeepsLag | udt4/src/core.cpp:1733-2101 | every step keeps the bounds on the lag of everything announced and released |
| TransportLag.AnnouncesIff | udt4/src/core.cpp:1733-1829 | in every run: the exact lags at which the receiver sends a full acknowledgement |
| TransportProgress.NeverStuck | udt4/src/core.cpp:2259-2640 | from every moment of every run with less than 2^30 - 1 numbers unconfirmed, even if the network loses all it holds, some steps, with no message late, deliver everything and empty the send buffer |
| TransportSilence.SilentForEver | udt4/src/core.cpp:1733-2101 | once no number that can become the first missing one counts as later than the last confirmed one, nothing that happens makes the sender release what it holds |
| TransportSilence.CanFinishIff | udt4/src/core.cpp:1733-2640 | in every run, after total loss in the network: the two ends can finish if and only if they are alive; they are with a lag inside the half window, and more than three numbers beyond it only if nothing is left to release |
| TransportSilence.EveryLag | udt4/src/core.cpp:1785-1815 | runs that reach every lag inside the half window while confirmations are lost |
| TransportSilence.Deadlock | udt4/src/core.cpp:1793-1793 | a run after which the sender keeps a packet that arrived, whatever is handed over and whatever happens from then on |
| Connection.Connection.constructor | udt4/src/core.cpp:817-873 | two new ends, with their wrapped fields and arrays, the receiver's loss list of the flight flag size, are in the first state of a run |
| Connection.Connection.Recv | udt4/src/core.cpp:1124-1209 | whatever calls were made before, on wrapped ends and a network whose messages are late by a bounded amount: all bytes read so far are a prefix of all bytes handed over |
| Connection.Connection.GotPrefix | udt4/src/core.cpp:1124-1209 | the same at every moment |
| Connection.Connection.Send | udt4/src/core.cpp:1101-1121 | the bytes taken are the ones the other end will read next; a step of the run |
| Connection.Connection.Pack | udt4/src/core.cpp:2259-2340 | the wrapped packet stands for a message put into the network; a step of the run |
| Connection.Connection.DataArrives | udt4/src/core.cpp:2405-2443 | a wrapped packet, if not too old, is handled as the run demands, and so is the loss report it causes |
| Connection.Connection.SendLiteAck | udt4/src/core.cpp:1733-1755 | the wrapped number stands for a message put into the network; a step of the run |
| Connection.Connection.SendFullAck | udt4/src/core.cpp:1733-1829 | the same for the periodic acknowledgement |
| Connection.Connection.LiteAckArrives | udt4/src/core.cpp:1958-1969 | a lite acknowledgement in the network, if not too old, is never for numbers not sent; a step of the run |
| Connection.Connection.FullAckArrives | udt4/src/core.cpp:1971-2026 | a full acknowledgement in the network, if not too old, is never refused; a step of the run |
| Connection.Connection.NakArrives | udt4/src/core.cpp:2103-2159 | a coded loss report in the network, if not too old, is never refused; a step of the run |
| Connection.Connection.Ack2Arrives | udt4/src/core.cpp:2077-2101 | a confirmation in the network, if not too old, is for an acknowledgement sent; a step of the run |
| Connection.Connection.Expire | udt4/src/core.cpp:2612-2640 | after a silence both ends are still in a state of a run, with no byte lost or read |
| Connection.Connection.CanFinishIff | udt4/src/core.cpp:1733-2640 | the same exact condition for the wrapped ends, where every step is a call and no message is late; with a lag inside the half window it holds |
| Connection.Connection.Ready | udt4/src/core.cpp:1954-2159 | a message in the network that is not too old meets all the two ends demand |
| MessageSafety.ReadsWholeMessages | udt4/src/buffer.cpp:498-652 | in every run a read returns nothing or exactly one message as sent, never one read before, and an in-order one only after all before it |
| MessageSafety.OnceAndInOrder | udt4/src/buffer.cpp:546-652 | over the history of a run no message is read twice and in-order messages come in the order sent |
| MessageSafety.ReadFindsIff | udt4/src/buffer.cpp:546-652 | a read finds a message exactly if a whole unread one may be read, except while the only packet received is the one at the acknowledged position |
| MessageSafety.ReadFindsFirst | udt4/src/buffer.cpp:593-652 | what a read finds may be read, and no message that may be read ends before it |
| MessageSafety.ReadFreesIff | udt4/src/buffer.cpp:498-537 | what is read is freed exactly if all of it is acknowledged, and the buffer begins behind it; otherwise it stays, marked as read; nothing else changes |
| MessageSafety.ReadMissesLone | udt4/src/buffer.cpp:549-550 | a run in which that exception occurs: the one packet sent has arrived and a read finds nothing |
| MessageSafety.SkipKeeps | udt4/src/buffer.cpp:552-590 | only packets of messages read before are freed, and the search starts at a message |
| MessageRuns.ReadsOneSend | udt4/src/buffer.cpp:498-652 | in every run a read that finds a message returns exactly the bytes one earlier send handed over, up to the space given |
| MessageRuns.ArrivalHeld | udt4/src/buffer.cpp:374-389 | in every run a packet that arrives is held as it was sent, unless held already, and nothing else changes |
| MessageRuns.PacketsAreBlocks | udt4/src/buffer.cpp:120-164 | the packets of a message are the blocks the send buffer makes of it, with their boundary and order bits, and hold its bytes |
| MsgBuffer.MsgBuffer.ScanMsg | udt4/src/buffer.cpp:546-652 | the scan of the circular array finds what the search over unbounded numbers finds |
| MsgBuffer.MsgBuffer.ReadMsg | udt4/src/buffer.cpp:498-537 | copies, frees or marks the slots of the message found, over the wrap of the array |
| MsgBuffer.MsgBuffer.AddData | udt4/src/buffer.cpp:374-389 | in message mode, too, a packet never overwrites another |
| SendHeap.RootIsEarliest | udt4/src/queue.cpp:306-319 | the first entry of an ordered heap is the earliest |
| SendHeap.Entries | udt4/src/queue.cpp:355-442 | inserting and removing change nothing but the entry in question |
| SendHeap.InsertOrders | udt4/src/queue.cpp:355-383 | inserting keeps the order |
| SendHeap.RemoveOrdersIff | udt4/src/queue.cpp:403-436 | removing keeps the order exactly if the last entry is not earlier than its new parent |
| SendHeap.RemoveCanDisorder | udt4/src/queue.cpp:403-436 | six different sockets, scheduled one after the other, that removal of an inner entry puts out of order |
| SendHeap.ServedEarliest | udt4/src/queue.cpp:306-336 | serving takes the earliest entry and keeps the order |
| SendHeap.RescheduledOrders | udt4/src/queue.cpp:282-304 | rescheduling keeps the order exactly unless it takes out an inner entry whose parent is later than the last entry |
| SendHeap.RescheduleCanDisorder | udt4/src/queue.cpp:282-304 | the same six sockets get out of order when one of them is rescheduled |
| SendHeap.RescheduledAtOnce | udt4/src/queue.cpp:282-304 | after an update that schedules, the socket has one entry, at the earliest time there is; the other sockets have the same entries; if those are all later, the socket is first |
| SendHeap.SndUList.UpdateAndPop | udt4/src/queue.cpp:282-336 | the next request for a socket to serve then returns it |
| SendHeap.RescheduledFits | udt4/src/queue.cpp:282-304 | rescheduling outgrows the array exactly if that is full and the socket is not scheduled |
| SendHeap.UpdatesCanOverflow | udt4/src/queue.cpp:228-304 | a run: 4096 different sockets updated one after the other fill the array, one more outgrows it |
| SendHeap.SndUList.Insert | udt4/src/queue.cpp:355-383 | entry i is in slot i and knows it, also while it moves up |
| SendHeap.SndUList.Remove | udt4/src/queue.cpp:403-442 | the same while the last entry moves down; the entry taken out knows it is out |
| SendHeap.SndUList.InsertGrowing | udt4/src/queue.cpp:255-280 | a full array is doubled first, with all entries kept |
| SendHeap.SndUList.Pop | udt4/src/queue.cpp:306-336 | takes the first entry if it is due, and puts it back at its next time |
| SendHeap.SndUList.Update | udt4/src/queue.cpp:282-304 | schedules at once, or only if not scheduled, also in a full array when the socket is scheduled already; the socket is first if all others are later than the earliest time |
| SendHeap.SndUList.GetNextProcTime | udt4/src/queue.cpp:345-353 | the time of the first entry, 0 when nothing is scheduled |
| TimerList.RcvUList.Insert | udt4/src/queue.cpp:582-601 | appends; the list stays doubly linked and ascending |
| TimerList.RcvUList.Remove | udt4/src/queue.cpp:603-632 | takes exactly that node out of the links |
| TimerList.RcvUList.Update | udt4/src/queue.cpp:634-662 | moves the node to the end, or does nothing for a node not on the list; the list stays ascending |
| TimerList.RcvUList.CheckTimers | udt4/src/queue.cpp:1061-1087 | serves exactly the nodes stale at the start, once each and in order, keeps the living ones at the end, and terminates |
| TimerList.KeptInOrder | udt4/src/queue.cpp:1068-1087 | who is kept is decided one by one, and those kept stay in their order |
| TimerList.ServedAgainIff | udt4/src/queue.cpp:1062-1069 | a socket just served counts as stale again exactly if the clock reading is below the interval |
| TimerList.StaleIs | udt4/src/queue.cpp:1068-1069 | in an ascending list the stale nodes are the leading ones |
| Md5.Continues | udt4/src/md5.cpp:322-358 | going on with a message needs only the chaining value and the unfinished block |
| Md5.PaddingFits | udt4/src/md5.cpp:372-378 | the padding ends at a block boundary and is as short as possible |
| Md5.PaddingIs | udt4/src/md5.cpp:360-378 | the padded message is the message, a byte with the top bit alone, zeros, and in the last eight bytes the bit count modulo 2^64, least significant first |
| Md5.State.Append | udt4/src/md5.cpp:322-358 | after any pieces the state is that of their concatenation, with the bit count modulo 2^64 |
| Md5.State.Finish | udt4/src/md5.cpp:360-381 | the blocks compressed are those of the message padded by sections 3.1 and 3.2 of RFC 1321 |
| Md5.DigestOf | udt4/src/md5.cpp:312-381 | the digest does not depend on how the message is cut |
| NodeId.MemcmpIsNumeric | src/KadNodeId.h:112-117 | the byte order of identifiers is the order of the numbers they write |
| NodeId.CloserIsOrder | src/KadNodeId.h:299-302 | being closer to a key is a strict total order on identifiers |
| NodeId.XorLaws | src/KadNodeId.h:90-101 | XOR is symmetric and self-inverse, and distances from one point tell identifiers apart |
| NodeId.Triangle | src/KadNodeId.h:90-101 | the triangle inequality of the XOR distance |
| NodeId.FirstBitDecides | src/KadNodeId.h:112-117 | the first bit in which two identifiers differ decides their order |
| NodeId.XorBit | src/KadNodeId.h:90-101 | a bit of the distance tells whether the two bits differ |
| NodeId.KadId.Add | src/KadNodeId.h:123-135 | adds modulo 256 to the number of bytes, in place, also to itself |
| NodeId.KadId.Sub | src/KadNodeId.h:137-149 | subtracts modulo 256 to the number of bytes |
| NodeId.KadId.SetBit | src/KadNodeId.h:234-243 | sets or clears one bit and no other |
| NodeId.KadId.DistanceTo | src/KadNodeId.h:279-296 | returns r with 2^(r-1) <= distance < 2^r, and 0 exactly for equal identifiers |
| NodeId.KadId.XorWith | src/KadNodeId.h:101-101 | XORs in place, byte by byte, also with itself |
| Nearest.InsertTells | src/KadOpMgr.h:236-267 | a contact gets in exactly if its identifier is new and the list keeps it |
| Nearest.OfferedIsNearest | src/KadOpMgr.h:236-267 | whatever is offered in any order, the list is the nearest different identifiers of all, ascending and bounded |
| Nearest.NearestUnique | src/KadOpMgr.h:236-267 | the order of the offers does not matter |
| LookupSafety.EligibleIs | src/KadOpMgr.h:278-303 | whom a lookup may ask: every contact of its list not yet asked that did not fail too often, each once |
| LookupSafety.LookupsSafe | src/KadOpMgr.h:163-303 | in every run, for every lookup: the pending counter counts its outstanding requests and respects the limit, their contacts are different and blocked, so no reply misses its contact; it completes at most once and only with nothing outstanding |
| LookupSafety.RequestsConserved | src/KadOpMgr.h:413-491 | every request sent was answered, given up, or is outstanding |
| LookupSafety.StepKeeps | src/KadOpMgr.h:108-303 | each start, reply, timeout or outside change of a fail counter keeps the invariant of all lookups |
| LookupAsks.StartAsks | src/KadOpMgr.h:151-166 | a new lookup keeps the nearest of its first contacts and asks as many as it may, up to the parallelism limit |
| LookupAsks.ReplyAsks | src/KadOpMgr.h:201-232 | a reply that brought somebody new fills the lookup up: the pending requests are the smaller of the limit and those left plus whoever may be asked, so the limit is reached or nobody is left; any other reply asks nobody |
| LookupAsks.MergedIsNearest | src/KadOpMgr.h:204-219 | after a reply the list is the nearest of what it held and what the reply brought that is not void, oneself or asked already; it brought somebody new exactly if somebody is in the list that was not |
| LookupAsks.ReplyCounts | src/KadOpMgr.h:453-474 | a reply takes its sender's fail counter to zero and touches no other |
| LookupAsks.TimeoutCounts | src/KadOpMgr.h:476-491 | a timeout raises the contact's fail counter by one and touches no other |
| LookupAsks.TimeoutAsks | src/KadOpMgr.h:177-200 | after a timeout the contact leaves the list exactly if it failed too often, may be asked again otherwise, and one more is asked if there is one |
| LookupAsks.ChosenRather | src/KadOpMgr.h:278-303 | those asked failed least, the nearest first among equals, and nobody passed over should have been asked rather |
| LookupBounds.AskedAtMost | src/KadOpMgr.h:168-198 | a lookup asks a contact at most r + 1 times the stale limit, where r is how often something else resets the contact's fail counter |
| LookupBounds.AskedAtMostStale | src/KadOpMgr.h:278-303 | when only this lookup touches the counters, at most the stale limit |
| LookupEnds.StartEnds | src/KadOpMgr.h:151-166 | a start never completes a lookup, and leaves nothing outstanding exactly if none of its first contacts may be asked |
| LookupEnds.TimeoutEnds | src/KadOpMgr.h:177-200 | after a timeout a lookup is complete exactly if nothing is outstanding, and then nobody of its list is left to ask |
| LookupEnds.ResponseEnds | src/KadOpMgr.h:201-232 | after a reply a lookup is complete exactly if nothing is outstanding and the reply brought nobody new; nothing is outstanding exactly if it was the last reply and brought nobody new or left nobody to ask |
| LookupEnds.ResponseExhausts | src/KadOpMgr.h:220-232 | a lookup completed by a reply has nobody left to ask exactly if nobody was left before the reply |
| LookupEnds.StaysAsIs | src/KadOpMgr.h:453-491 | a lookup with nothing outstanding never changes again |
| LookupEnds.SilentIff | src/KadOpMgr.h:158-232 | over all runs: a lookup is at rest without having completed exactly if some step started it with nobody to ask, or was its last reply and brought someone new but nobody to ask |
| LookupEnds.StartCanHang | src/KadOpMgr.h:158-166 | lookups started with no contact, or with only a stale one, are at rest without having completed |
| LookupEnds.LookupCanHang | src/KadOpMgr.h:220-231 | a run whose lookup, after a reply, is at rest without having completed |
| LookupEnds.CompletesUnasked | src/KadOpMgr.h:226-228 | for every parallelism a run whose lookup completes with contacts in its list that it may ask and never asked |
| LookupObjects.FindOp.Insert | src/KadOpMgr.h:236-267 | the loop over the list does what offering one contact does |
| LookupObjects.FindOp.Merge | src/KadOpMgr.h:204-219 | skips void, own and known identifiers and offers the rest |
| LookupObjects.OpMgr.Send | src/KadOpMgr.h:278-303 | the two loops ask the eligible contacts, those that failed least first, nearest first, up to the quantity |
| LookupObjects.OpMgr.Find | src/KadOpMgr.h:541-549 | starts a lookup from the contacts given |
| LookupObjects.OpMgr.HandleResponse | src/KadOpMgr.h:453-474 | finds the request by its number, resets the contact's counter, and lets its lookup act; `LookupAsks.ReplyAsks` says how many it then asks |
| LookupObjects.OpMgr.HandleTimeout | src/KadOpMgr.h:476-491 | finds the request itself, raises the contact's counter, and lets its lookup act |
| LookupObjects.OpMgr.Heard | src/KadOpMgr.h:363-368 | any message from a stale contact takes it back |
| RoutingSafety.SplitKeeps | src/KadRtNode.h:32-71 | a bucket that may split has nothing cached, and a split only distributes its contacts |
| RoutingSafety.AddKeeps | src/KadRtNode.h:73-118 | adding keeps the invariant, loses no contact, and returns the contact that stands for the identifier |
| RoutingSafety.RemoveKeeps | src/KadRtNode.h:120-139 | removes exactly the contact, or a cached one, and tells whether there was one |
| RoutingSafety.AllDistinct | src/KadRtNode.h:73-118 | no identifier is in the table twice |
| RoutingSafety.FindIsSearch | src/KadRtNode.h:141-152 | following the bits of the distance finds what a search of all contacts finds |
| RoutingSafety.TableIsIndex | src/KadRtNode.h:73-152 | the same after every sequence of additions and removals, with the listings showing exactly the contacts |
| RoutingGrowth.AddPlaces | src/KadRtNode.h:73-118 | after an addition the identifier is in the bucket its distance leads to, unless that is full and too deep to split; then it is the last one cached |
| RoutingGrowth.AddFinds | src/KadRtNode.h:32-118 | after any run and an addition the table finds the identifier, unless its bucket is full, and at the last depth or as deep as the base and beyond the first 2^(depth mod b) of its depth |
| RoutingGrowth.RunGrown | src/KadRtNode.h:32-71 | after any run only buckets that meet this condition cache anything, and no node that meets it was split |
| RoutingGrowth.SideOrders | src/KadRtNode.h:54-56 | a split hands the contacts out one after the other, so they keep their order |
| RoutingGrowth.SideOfOne | src/KadRtNode.h:54-56 | each goes to its side |
| RoutingGrowth.KnownMoves | src/KadRtNode.h:76-84 | a contact added again moves to the end of its bucket, the others keep their order |
| RoutingGrowth.CacheForgetsOldest | src/KadRtNode.h:96-114 | the new one is the last one cached, and whoever is forgotten was the oldest of a full cache |
| RoutingGrowth.RemoveTakes | src/KadRtNode.h:120-139 | one entry with the identifier is taken out, from the contacts if it is there, else from the cache; the others keep their order |
| RoutingBounds.IndexNeverOverflows | src/KadRtNode.h:48-49 | node indices fit 32 bits as long as the two split parameters do not exceed 32 |
| RoutingBounds.TableBounded | src/KadRtNode.h:32-36 | the number of buckets and contacts the split rule allows at most |
| RoutingClosest.FindClosestPromises | src/KadRtNode.h:154-183 | as many different live contacts as there are up to the quantity, the very nearest among them, nobody farther than one left out except within one bucket |
| RoutingExact.PickExact | src/KadRtNode.h:165-181 | with at most one wanted, or room for all live contacts, a bucket gives exactly the nearest ones |
| RoutingExact.PickMisses | src/KadRtNode.h:165-181 | in all other cases, with any stale contacts, the same contacts can be ordered such that one is missed |
| RoutingExact.PickExactIff | src/KadRtNode.h:165-181 | every order of a bucket gives exactly the nearest live contacts if and only if at most one is wanted or there is room for all |
| RoutingOrders.ClosestExactIff | src/KadRtNode.h:154-183 | after any run the search over the table gives exactly the nearest live contacts, for every order within the buckets, if and only if the last bucket visited has at most one still wanted or room for all its live ones |
| RoutingOrders.ClosestCanMiss | src/KadRtNode.h:154-183 | for every bucket size from three on a run after which the search for as many contacts misses one nearer than some it returns |
| RoutingClosest.SideCloser | src/KadRtNode.h:28-29 | of two contacts of a node the one on the key's side is nearer |
| RoutingNode.RtNode.Split | src/KadRtNode.h:38-71 | the two new nodes get the contacts of their side, and of the cache what fits; which nodes split is `RoutingGrowth.RunGrown` |
| RoutingNode.RtNode.AddNode | src/KadRtNode.h:73-118 | descends, splits as long as it may, moves known contacts to the end, caches otherwise; terminates; where the contact ends up is `RoutingGrowth.AddFinds` |
| RoutingNode.RtNode.RemoveNode | src/KadRtNode.h:120-139 | removes in the bucket the distance leads to |
| RoutingNode.RtNode.FindNode | src/KadRtNode.h:141-152 | finds in the bucket the distance leads to |
| RoutingNode.RtNode.FindClosest | src/KadRtNode.h:154-183 | the near side first, then the far one, with the scan of each bucket |
| RoutingNode.RtNode.GetContacts | src/KadRtNode.h:257-270 | exactly the live contacts of the table, in order |
| RoutingNode.RtNode.CountContacts | src/KadRtNode.h:214-214 | the sum over the buckets, which counts every contact of the table, stale or not, and nothing cached |
| RoutingNode.RtNode.Add | src/KadRtNode.h:241-243 | the table keeps its invariant, grows by at most this contact and loses none |
| RoutingNode.RtNode.Remove | src/KadRtNode.h:245-247 | the table keeps its invariant and loses at most this contact |

## Left out

- Sockets, threads, locks, condition variables, epoll, files and the system clock: each handler is one step, clock readings are parameters that do not decrease.
- Congestion control (`udt4/src/ccc.cpp`) and the rate and bandwidth estimates: floating point; the congestion window is a parameter of `PackData`.
- The value of the round-trip estimate and the time since the last acknowledgement: whether the periodic acknowledgement comes too early is a parameter.
- Connection setup, cookies, rendezvous and shutdown: the model starts from an established connection, with any initial number, 0 included.
- Time-to-live of messages and `dropMsg`: the model has no expired messages, so the loss list is never emptied by range.
- `CRcvLossList::remove(a, b)`: it is used only when messages are dropped.
- `addBufferFromFile`, `readBufferToFile` and the file transfer calls: file input and output.
- The unit queue behind the receive buffer: a receive slot holds its packet as a value.
- `CCache`, `CHash`, the handshake and control-packet formats other than the loss report.
- SenderEnd.SenderEnd.ProcessFullAck: does not model the limit on how often confirmations are sent, because whether to confirm is left open as `confirm` in the steps of `TransportSafety`.
- SenderEnd.SenderEnd.ProcessNak: models only words that are a code of ranges, because a flagged last word makes the source read past the array.
- SndBuffer.SndBuffer.ReadAt: leaves out the blocks skipped because they expired, as there is no time-to-live.
- SendHeap.SndUList.Update: requires a free slot for a socket that is not scheduled, because the source writes past a full array; `SendHeap.RescheduledFits` says exactly when.
- TimerList.RcvUList.CheckTimers: requires a clock reading of at least the interval, because below it the unsigned difference wraps and the loop of the source serves a living socket again and again; `TimerList.ServedAgainIff` says exactly when.
- TransportProgress.NeverStuck: requires a lag inside the half window, because beyond it the receiver of the source can fall silent for ever; `TransportSilence.CanFinishIff` says exactly when. It and the other results about the lag are about windows inside the half window, as every comparison of wrapped numbers in the source is.
- Md5.State.Append: takes the shift of the length to wrap around at 32 bits; for 2^28 bytes and more that shift overflows a signed integer in the original.
- MsgBuffer.MsgBuffer.ReadMsg: requires the packets to be those of whole messages as sent, because only then is a message that can be freed at the start of the buffer.
- NodeId.KadId.Add: `Mul`, `Shl`, `RandomId` and the hash constructors are not modelled, because their results are random or not what their names say.
- Lookup: what `FindClosest` and the contact cache return for a reply is a parameter; message numbers are any sequence of numbers, so two requests may share one.
- The compression function of MD5 is a parameter.

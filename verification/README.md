# The ENA ring engine and the driver layers on top of it

The ENA drivers talk to the adapter through rings in memory. This project models
how they do it and proves what the rings rely on:

* **Queue engine** (`Words`, `TxWire`, `TxDecode`, `SqAccounting`,
  `SubmissionQueue`, `TxRun`, `CompletionQueue`). Submission and completion rings
  with free-running 16-bit counters and a phase bit; packets encoded as
  descriptors in a host-memory ring or, through bounce buffers, in the lines of a
  low-latency queue with a pushed header, a burst budget and a cached meta
  descriptor; receive packets assembled over many polls.
* **Request-id rings** (`Tally`, `IdRing`, `TxRing`, `RxRing`, `XdpRing`).
  Completions come in any order and recycle ids through a circular table. Nothing
  but the descriptor accounting of the submission queue keeps that table from
  overrunning, so these proofs join both layers.
* **Protocols** (`FlowControl`, `TxFlow`, `TimerExclusion`). The stop/wake protocol
  between sender and cleaner and the flag handshake between timer and cleaner, as
  state machines over single shared accesses; `TxFlow` puts the first around the
  transmit ring and shows that every run of the ring is one of the protocol, and
  that a stopped ring can be woken.
* **Packet mapping** (`Mapping`, `Netmap`). A fragmented packet becomes a pushed
  header and DMA buffers, with everything undone on failure.
* **Two small cores** (`Dim`, `Rss`). Dynamic interrupt moderation, and the text
  form of the receive side scaling table.

## How the model is built

Structures that the drivers update in place are classes with the same fields
(`IoSq` is `struct ena_com_io_sq`, `IoCq` is `struct ena_com_io_cq`, the `Ring`
classes are `struct ena_ring`); their methods are the drivers' functions, proved
against functions and predicates about which the lemmas below are stated. 16-bit
and 32-bit wrap-around is written out. `counter & (depth - 1)` is a bitwise
conjunction, proved equal to a remainder in `Words.MaskedIsMod`; unbounded ghost
counters (`submitted`, `acked`, `read`) tell how far a wrapping counter really is.

Ring memory is kept byte by byte: a cell says which byte of which descriptor, or
which header byte, was stored there last. An overlap of the descriptors of the
first line with the header, or a descriptor in the wrong place, would show. The
reader of `TxDecode` knows only the format: it walks entries, checks phases,
stops at LAST and puts bit fields together again.

The device is an environment that completes descriptors at any time
(`CompletionQueue.IoCq.DeviceRuns`). Senders and cleaners of a transmit ring run in
parallel: `OthersRun` is a loop over the very steps of the sender and the device, and
`TxRing` also has `CleanerRuns`, a loop over the steps of the cleaner and the device
in the middle of sending a packet. What is proved of a cleaner or a sender so
holds in every interleaving of those steps. The senders of that environment send any
packet that fits one burst (`SqAccounting.FitsBurst`), since the driver resets the
device when one does not. An assumption about the device is a predicate on its
log, such as `RxRing.Honest`, that `RelyOn` makes part of the environment.

The preconditions of the constructors are what queue creation establishes: a
depth that is a power of two, phase 1 over zeroed memory, an empty first line, a
full burst budget, and equal depths of the ring and its two queues
(kernel/fbsd/ena/ena-com/ena_com.c:362-495 and 693-819; FreeBSD creates the
queues at the requested size, kernel/fbsd/ena/ena.c:1604 and 1641). The stop/wake
protocol needs no more than room for one packet on an empty ring, which every ring of
the smallest size has (`FlowControl.SmallestRingHasRoom`). DMA mapping and allocation
succeed or fail at will. `hide` statements only keep the proofs small.

## What came out false, or is not what the comments say

* The rough space check does not cover every packet: a header-only packet with
  changed meta data on a host-memory queue can overrun it, and so can a packet of
  65535 buffers, on every queue deep enough for the check to let them pass.
  `SqAccounting.SpaceCheckSoundIff` gives the exact condition.
* The doorbell predictor counts the buffers and the meta descriptor, and is wrong
  for a header-only packet with meta data when one descriptor fits before the
  header (`SqAccounting.PredictorExactIff`). A packet can then run out of the burst
  budget although a doorbell would have refilled it (`SqAccounting.FitsBurstIff`).
* The test for a valid completion is whether a packet is attached to its id. A packet
  is attached before it is submitted, so a completion that names that id too early
  passes, and the id is given out again while its packet is in flight; no reset is
  asked for. Ids are conserved if and only if that never happens
  (`TxRing.Ring.XmitMbuf`); `TxRing.Ring.StrayRun` goes through such a run.
* An AF_XDP frame of length zero is never released, and nothing behind it
  (`XdpRing.Ring.EmptyFrameBlocks`): its size marks its id as idle, so that no
  completion is accepted for it. Without a meta descriptor it takes no queue entry
  either (`XdpRing.FrameHoldsEntryIff`), and then nothing bounds such frames: enough
  of them take the ids of packets in flight (`XdpRing.Ring.EmptyFramesTakeAllIds`).
  The ids suffice if and only if meta caching is disabled, or empty frames are
  excluded, or the queue never has room for a frame at all (`XdpRing.IdsSufficeIff`).
* `nb_hw_desc` is a difference of two 16-bit tails in an `int`; it is negative
  when the tail wraps and right modulo 2^16 only, which is all that the
  acknowledgement needs (`TxRing.BookClean`).
* The fields of a descriptor are narrower than the context's
  (`TxDecode.WireIsExactIff`), and the length of a DMA buffer is 16 bits wide: a
  longer piece is neither read (`Mapping.ReadsAllIff`) nor given back
  (`Mapping.GivesBackIff`) as a whole.
* Loading an mbuf's DMA map without an error but without segments is reported as
  success, although nothing is attached (`Mapping.TxBuffer.TxMapMbuf`).
* The fragment check counts fragments that the pushed header swallows
  (`Mapping.TooManyIff`).
* Giving back a netmap packet restores its buffers but clears the marks that hold
  its slots together (`Netmap.GivenBackKeepsPacketIff`), and empty slots at the
  end of a packet are not consumed (`Netmap.UsesTheChainIff`). The packet length is
  a 16-bit number, so a chain of 65536 bytes or more is never taken whole
  (`Netmap.WholeChainIff`).
* The comment on `IS_SIGNIFICANT_DIFF` says ten percent; the code needs eleven
  (`Dim.SignificantIff`), and of two measurements each can be better than the other
  (`Dim.EachBetterThanTheOther`). The checks for negative numbers in the parser of the
  scaling table can never fire, so that a negative index is out of range instead of
  invalid (`Rss.IndexVerdict`), and numbers too wide for 32 bits are reduced
  (`Rss.NumberArrivesIff`). After an error of the device its table and the driver's
  differ, unless the text changed nothing (`Rss.Indir.SetTable`).

## Model

| member | source | states |
|---|---|---|
| Words.MaskedIsMod | kernel/fbsd/ena/ena-com/ena_eth_com.c:68 | For every power-of-two depth, the mask by depth - 1 is the remainder by the depth |
| Words.CounterSlot | kernel/fbsd/ena/ena-com/ena_eth_com.c:68 | A wrapped 16-bit counter gives the slot of the unbounded count |
| Words.CounterStep | kernel/fbsd/ena/ena-com/ena_eth_com.h:223-230 | One increment of the wrapped counter is the next slot, and flipping the phase when the slot is 0 gives the phase of the next lap |
| Words.LapFlipsPhase | kernel/fbsd/ena/ena-com/ena_eth_com.c:111-114 | One lap later the slot is the same and the phase the other one |
| TxWire.FirstAndLastMarkTheEnds | kernel/fbsd/ena/ena-com/ena_eth_com.c:500-590 | In every packet, FIRST is on exactly the first data descriptor and LAST on exactly the last descriptor |
| TxWire.ChunkCount | kernel/fbsd/ena/ena-com/ena_eth_com.c:210-239 | The lines a packet fills are one for the header line and one per full or started line of the remaining descriptors |
| TxWire.LineLayout | kernel/fbsd/ena/ena-com/ena_eth_com.c:119-149 | Each byte of a line: 16 for each descriptor from the start, the header behind the places reserved for descriptors, zeros elsewhere |
| TxWire.LineCapacityFits | kernel/fbsd/ena/ena-com/ena_com.c:772-777 | A line has places for as many whole descriptors as fit, or for one |
| TxDecode.DecodeEncode | kernel/fbsd/ena/ena-com/ena_eth_com.c:439-596 | Round trip: for every packet with a header or buffers, in both queue modes, at any ring position and whatever follows, the reader recovers meta data, request id, header bytes, all buffers and the FIRST, LAST and completion marks of every descriptor, and stops after exactly the packet's entries |
| TxDecode.OverwrittenIsNotRead | kernel/fbsd/ena/ena-com/ena_eth_com.c:119-149 | Overlaps show: a descriptor with one byte overwritten is not read as that descriptor |
| TxDecode.AsksForOneCompletion | kernel/fbsd/ena/ena-com/ena_eth_com.c:500-590 | What the reader finds: exactly the first data descriptor of a packet asks for a completion, FIRST is on the first descriptor alone and LAST on the last alone |
| TxDecode.WireIsExactIff | kernel/fbsd/ena/ena-com/ena_defs/ena_eth_io_defs.h:310-371 | Nothing is lost in the bit fields if and only if every value fits its field |
| TxDecode.PacketHeader | kernel/fbsd/ena/ena-com/ena_eth_com.c:119-149 | The descriptors of the first line leave every byte of the pushed header alone |
| SqAccounting.EntriesUsedCount | kernel/fbsd/ena/ena-com/ena_eth_com.c:210-258 | The entries a packet takes, as a formula of its descriptor count, in both modes |
| SqAccounting.EnoughSpaceIff | kernel/fbsd/ena/ena-com/ena_eth_com.h:117-133 | The space check passes if and only if as many entries are free as required, or, on a low-latency queue, the free lines besides two have places for more descriptors than required |
| SqAccounting.SpaceCheckSound | kernel/fbsd/ena/ena-com/ena_eth_com.h:117-133 | A covered packet that passes the rough check never takes more entries than are free |
| SqAccounting.SpaceCheckSoundIff | kernel/fbsd/ena/ena-com/ena_eth_com.h:117-133 | The check is sound for a packet, for every number of entries that can be free in a queue of its depth, exactly when its condition on the packet and the depth holds |
| SqAccounting.PredictorExactIff | kernel/fbsd/ena/ena-com/ena_eth_com.h:152-181 | The entries predicted for the doorbell are the entries written, exactly when its condition on the packet holds |
| SqAccounting.FitsBurstIff | kernel/fbsd/ena/ena-com/ena_eth_com.h:152-202 | Whatever is left of the last burst, a packet finds enough budget, after the doorbell if the predictor asks for one, exactly when it fits one burst and is predicted right |
| SqAccounting.FittingNeverRunsOut | kernel/fbsd/ena/ena_netmap.c:431-435 | With the budget left, or a full one when the predictor asks for the doorbell, a packet that fits one burst never runs out of it |
| SqAccounting.CachingRefinesAlwaysSending | kernel/fbsd/ena/ena-com/ena_eth_com.c:375-399 | For every run of packets, a device that reuses the last stored meta data applies to each packet with meta data what sending it every time would have |
| SqAccounting.SentExactlyOnChange | kernel/fbsd/ena/ena-com/ena_eth_com.c:375-399 | In every run, with caching a packet carries a meta descriptor if and only if it has meta data and those are not the last ones before it |
| SubmissionQueue.StoredReadsBack | kernel/fbsd/ena/ena-com/ena_eth_com.c:75-117 | Up to one lap of stored lines reads back in order, and every other entry keeps its contents |
| SubmissionQueue.IoSq.constructor | kernel/fbsd/ena/ena-com/ena_com.c:362-449 | The created queue satisfies the invariant: counters, phase and budget follow the unbounded counts, the open line is empty |
| SubmissionQueue.IoSq.FreeQEntries | kernel/fbsd/ena/ena-com/ena_eth_com.h:105-115 | The 16-bit difference gives the true number of free entries, between 0 and depth - 1 |
| SubmissionQueue.IoSq.CompAck | kernel/fbsd/ena/ena-com/ena_eth_com.h:218-221 | Acknowledging a count known modulo 2^16 acknowledges exactly that many entries |
| SubmissionQueue.IoSq.WriteDoorbell | kernel/fbsd/ena/ena-com/ena_eth_com.h:183-202 | The doorbell publishes the tail and refills the budget |
| SubmissionQueue.IoSq.CloseBounceBuffer | kernel/fbsd/ena/ena-com/ena_eth_com.c:172-200 | A started line is stored at the next slot and a fresh zeroed line is open; with the budget used up it is not stored |
| SubmissionQueue.IoSq.SqUpdateTail | kernel/fbsd/ena/ena-com/ena_eth_com.c:210-258 | Finishing a descriptor stores the line exactly when it is full, and fails exactly when it is full and the budget is used up |
| SubmissionQueue.IoSq.CreateAndStoreMeta | kernel/fbsd/ena/ena-com/ena_eth_com.c:329-399 | A meta descriptor is written when the meta data changed or caching is off, and what is cached afterwards |
| SubmissionQueue.IoSq.PrepareTx | kernel/fbsd/ena/ena-com/ena_eth_com.c:439-596 | The result is the verdict of the checks; an accepted packet is in the ring exactly as the reader expects it and nothing else changed; a refused one changes nothing; a burst that runs out keeps the lines that fitted |
| SubmissionQueue.IoSq.Submit | kernel/fbsd/ena/ena-com/ena_eth_com.c:439-596 | A sendable packet is accepted exactly when it passes the space check, its header is short enough and the budget covers its entries; then the outstanding entries grow by exactly its entries and never overrun the queue |
| SubmissionQueue.IoSq.AddSingleRxDesc | kernel/fbsd/ena/ena-com/ena_eth_com.c:664-699 | A receive buffer is refused exactly when nothing is free, and otherwise stored with its id and phase at the tail |
| TxRun.RunReadsBack | kernel/fbsd/ena/ena-com/ena_eth_com.c:439-596 | Every run of packets is read back packet by packet, with the meta data that caching leaves in force |
| TxRun.SubmitRun | kernel/fbsd/ena/ena-com/ena_eth_com.c:439-596 | Packets are sent on one queue with doorbells and acknowledgements in between; up to a lap, what a device reads from ring memory are those packets in order, each with the meta data that applies to it, and the other entries are as they were |
| TxRun.PacketReadsBackFromRing | kernel/fbsd/ena/ena-com/ena_eth_com.c:439-596 | The packet just written is what a reader finds in ring memory, wrap-around included and whatever older entries hold |
| CompletionQueue.IoCq.GetNextCdesc | kernel/fbsd/ena/ena-com/ena_eth_com.c:36-61 | The phase test succeeds exactly when the device has written an entry not yet read, and gives that entry |
| CompletionQueue.IoCq.CqIncHead | kernel/fbsd/ena/ena-com/ena_eth_com.h:223-230 | The wrapped head and its phase follow the unbounded count |
| CompletionQueue.IoCq.CqEmpty | kernel/fbsd/ena/ena-com/ena_eth_com.c:701-710 | Empty exactly when everything written is read |
| CompletionQueue.IoCq.TxCompReqIdGet | kernel/fbsd/ena/ena-com/ena_eth_com.h:232-278 | Completed ids come one by one in the device's order, none lost or repeated; each error leaves the head |
| CompletionQueue.IoCq.CdescRxPktGet | kernel/fbsd/ena/ena-com/ena_eth_com.c:269-327 | The scan over several polls ends as one scan from the start of the packet would: pending, malformed, or complete with its first slot and length |
| CompletionQueue.CutAppend | kernel/fbsd/ena/ena-com/ena_eth_com.c:269-327 | Cutting a stream at its LAST bits goes on across packet boundaries |
| CompletionQueue.ScanResult | kernel/fbsd/ena/ena-com/ena_eth_com.c:284-317 | Where a scan that has passed over continuing descriptors ends |
| CompletionQueue.IoCq.RxPkt | kernel/fbsd/ena/ena-com/ena_eth_com.c:598-662 | However writes and polls interleave, the outcome depends only on the stream from the start of the packet: the packets returned are the stream cut at its LAST bits, each with its lengths and ids; when nothing is complete, all complete packets are returned |
| IdRing.PartitionIsExact | kernel/fbsd/ena/ena_datapath.c:294-296 | Free ids are distinct, and an id is free exactly when it is not in use |
| IdRing.PutAgain | kernel/fbsd/ena/ena_datapath.c:634-648 | Putting all ids of a packet back over a start of the same ids gives what one pass gives |
| TxRing.RoomForOne | kernel/fbsd/ena/ena_datapath.c:1006-1010 | There is always a free id, because every live packet holds a queue entry |
| TxRing.BookRecord | kernel/fbsd/ena/ena_datapath.c:1059-1067 | Recording a submitted packet takes the first free id and keeps the books |
| TxRing.BookClean | kernel/fbsd/ena/ena_datapath.c:268-317 | Cleaning any live id, in any order and whatever the sender is doing, puts it behind the free ones and keeps the books, although descriptor counts are right modulo 2^16 only |
| TxRing.BookStray | kernel/fbsd/ena/ena_datapath.c:268-296 | Cleaning the id that is being sent puts it into the free window a second time |
| TxRing.Ring.Conservation | kernel/fbsd/ena/ena_datapath.c:268-317 | In every reachable state, also while a packet is attached or submitted, free ids and ids of recorded packets are exactly 0..size-1, the 16-bit distance is the entries of unacknowledged packets, and the id up for use is free and nobody's but the packet's being sent |
| TxRing.Ring.XmitMbuf | kernel/fbsd/ena/ena_datapath.c:974-1067 | With the cleaner running while the packet is attached and while it is submitted, and whatever becomes of the packet, ids are conserved if and only if no completion taken meanwhile names its id; then a sent packet takes the first free id and holds exactly its entries, and every failure gives the id back; a packet that fits one burst and passes the space check is sent |
| TxRing.Ring.StrayRun | kernel/fbsd/ena/ena_datapath.c:872 | From any state between packets, one completion of the id just attached leads to a packet in flight under a free id, without its buffer and without a reset |
| TxRing.Ring.SenderStep | kernel/fbsd/ena/ena_datapath.c:974-1106 | Each step of the sender, between two steps of the cleaner, keeps the invariant and takes nothing from what the cleaner owns |
| TxRing.Ring.Announce | kernel/fbsd/ena/ena_datapath.c:1156-1159 | No packet is forgotten: the invariant counts the packets since the last doorbell, at most 64, and the doorbell at the end publishes them all |
| TxRing.Ring.CleanOne | kernel/fbsd/ena/ena_datapath.c:210-231 | A completion is taken exactly when it is well formed and a packet is attached to its id; it frees the id, unless the packet is being sent, and then loses conservation; repeated, unknown or malformed ones change nothing but ask for a reset |
| TxRing.Ring.TxCleanup | kernel/fbsd/ena/ena_datapath.c:244-310 | With the sender's steps in between, completions are taken one by one up to 128; it stops earlier only when none is left or the next one is unreadable or names an id without a packet; exactly what was cleaned is acknowledged, every 32 packets and at the end; conservation survives if and only if no completion names the id being sent |
| FlowControl.EnoughSpaceMonotone | kernel/fbsd/ena/ena-com/ena_eth_com.h:117-133 | More free entries or a smaller request never make the space check fail |
| FlowControl.SmallestRingHasRoom | kernel/fbsd/ena/ena.h:105 | Every ring the driver accepts has room for a packet of the largest number of buffers when it is empty |
| FlowControl.StepKeepsInv | kernel/fbsd/ena/ena_datapath.c:1069-1094 | Every step of sender and cleaner, which may acknowledge several times before it tests the space, keeps the invariant of the protocol |
| FlowControl.ReachableStatesAreSafe | kernel/fbsd/ena/ena_datapath.c:312-338 | In every interleaving, outside the two windows a stopped ring has no room to resume, and an awake ring has room for every packet |
| FlowControl.ResumesFrom | kernel/fbsd/ena/ena.h:127 | A ring passes the resume test from 21 free entries on; on a low-latency queue, from three lines more than 21 descriptors fill |
| FlowControl.StopsBelow | kernel/fbsd/ena/ena_datapath.c:1069-1080 | After a packet the ring is stopped exactly when two entries more than the largest packet takes are not free |
| FlowControl.EmptyRingResumes | kernel/fbsd/ena/ena.h:105-127 | Every ring of an accepted size passes the resume test when nothing is outstanding |
| FlowControl.CanBeWokenIff | kernel/fbsd/ena/ena_datapath.c:312-338 | From every state of the protocol a stopped ring can be woken by acknowledging, without sending, if and only if an empty ring passes the resume test |
| FlowControl.ReachableStatesCanWake | kernel/fbsd/ena/ena_datapath.c:312-338 | No deadlock: every run over a ring of an accepted size can be continued without sending to one that ends with the ring running |
| FlowControl.CleanerFinishes | kernel/fbsd/ena/ena_datapath.c:321-338 | With the sender away, the cleaner's steps end with the ring running if and only if it was, or the cleaner was still to look and there is room to resume |
| FlowControl.AwakeNeverRefused | kernel/fbsd/ena/ena_datapath.c:1069-1094 | In every run, while the ring is awake the next packet within the segment limit passes the space check and fits what is free |
| TxFlow.Flow.SubmitPacket | kernel/fbsd/ena/ena_datapath.c:1036-1076 | On the ring itself, whatever sender, cleaner and device did before: while the sender prepares a packet within the segment limit, the submission queue takes it, and that is the protocol's step |
| TxFlow.Flow.AnyRun | kernel/fbsd/ena/ena_datapath.c:244-338 | Every run of sender, cleaner and device over the ring is a run of the protocol, with the outstanding entries of the submission queue for its count; so no wake-up is lost, an awake ring has room, and whenever no sender is in, the doorbell has published every packet |
| TxFlow.Flow.AcknowledgeAndLook | kernel/fbsd/ena/ena_datapath.c:309-338 | On the ring itself: between packets, once the cleaner has acknowledged and looked, the ring runs if and only if it did before or 21 entries are free, or the lines for as many |
| TxFlow.Flow.Wake | kernel/fbsd/ena/ena_datapath.c:244-338 | No deadlock on the ring itself: between packets, with the completion queue read, the ring runs again, with nothing outstanding and no reset, once the device completes what is in flight and the cleaner collects and acknowledges it |
| RxRing.BookPost | kernel/fbsd/ena/ena.c:1122-1155 | Posting takes the first free id and keeps the books |
| RxRing.BookReturnAll | kernel/fbsd/ena/ena_datapath.c:470-516 | Returning the ids of a whole packet keeps the books and leaves later completions honest |
| RxRing.Ring.Conservation | kernel/fbsd/ena/ena.c:1111-1169 | Posted and free ids are exactly 0..size-1, the ring indices are the queue counters modulo the size, and the device is never a lap ahead |
| RxRing.Ring.PostOne | kernel/fbsd/ena/ena.c:1122-1155 | The element at the tail posts the id at next_to_use, which was free, with the buffer of that id |
| RxRing.RefillsAbove | kernel/fbsd/ena/ena_datapath.c:700-707 | The threshold is passed exactly when more than an eighth of the ring or more than 256 entries are free |
| RxRing.Ring.Refill | kernel/fbsd/ena/ena.c:1111-1169 | Every element a refill adds to the queue posts the next free id with that id's own buffer, and nothing else changes there; a refill stops early only when an allocation fails, or when more was asked for than was free; the doorbell publishes what was posted |
| RxRing.Ring.ReceiveMbuf | kernel/fbsd/ena/ena_datapath.c:418-518 | Buffers are taken and ids put back in order up to the first missing buffer; the index moves only on success |
| RxRing.Ring.TakeBack | kernel/fbsd/ena/ena_datapath.c:628-648 | Also when a buffer is missing, all ids of the packet go back, each once |
| RxRing.Ring.ReceivePacket | kernel/fbsd/ena/ena_datapath.c:598-648 | An honest device's packet is reset only when malformed or too long; otherwise its ids go back, and no buffer is missing when every posted one was there |
| RxRing.Ring.RxCleanup | kernel/fbsd/ena/ena_datapath.c:562-712 | Packets go up in the order of the stream, as many ids return as descriptors were read; it stops only when 256 of them were, when nothing complete is left, at an unacceptable packet or a missing buffer; if more than an eighth of the ring or more than 256 entries are free then, all of them are posted and the device is told, unless an allocation failed; otherwise nothing is posted |
| XdpRing.FrameHoldsEntryIff | kernel/fbsd/ena/ena-com/ena_eth_com.c:375-496 | A frame holds a queue entry if and only if it has bytes or comes with a meta descriptor |
| XdpRing.IdsSufficeIff | kernel/linux/ena/ena_xdp.c:786-858 | Whatever frames are sent, the ids left suffice if and only if meta caching is disabled, or empty frames are excluded, or the queue never has room for a frame |
| XdpRing.RoomForOne | kernel/linux/ena/ena_xdp.c:800-802 | As long as every packet in flight holds an entry, fewer packets are in flight than there are ids, and the id up for use is idle |
| XdpRing.CtxIsFrame | kernel/linux/ena/ena_xdp.c:800-830 | On both kinds of queue, the pushed header and what the device reads at the buffer are the frame's bytes, in order |
| XdpRing.HeaderFirst | kernel/linux/ena/ena_xdp.c:804-824 | As much of the frame as fits is pushed, a buffer is there only for the rest, and no offload is asked for |
| XdpRing.BookRelease | kernel/linux/ena/ena_xdp.c:702-742 | What the cleaner finds completed at its index is the oldest packet in flight, and not an empty one |
| XdpRing.Ring.XmitCommon | kernel/linux/ena/ena_netdev.c:227-273 | A packet of any owner is accepted exactly when it passes the space check, its header is short enough and it finds its budget; then it joins the end of the packets in flight, otherwise no record changes |
| XdpRing.Ring.XmitFrame | kernel/linux/ena/ena_xdp.c:800-858 | A frame of any length there was room for is sent as it is, under a context that stands for its bytes (`CtxIsFrame`), exactly when its entries are covered by the budget left, or by a full one if the doorbell was rung first; a frame that fits one burst always is |
| XdpRing.Ring.XmitIrqZc | kernel/linux/ena/ena_xdp.c:759-875 | The packets sent are the first frames of the socket in its order, as many as space and burst budget allow; a device that decodes the ring and reads the buffers has the bytes of exactly those frames; the loop stops early only without room or at a frame that does not fit one burst, which no frame does with room for two descriptors before the header; the ring stays valid exactly when they are no more than the ids left, and always with meta caching disabled or without empty frames in flight |
| XdpRing.Ring.EmptyFramesTakeAllIds | kernel/linux/ena/ena_xdp.c:776-845 | Frames of length zero pass the space check without end and take the ids of packets in flight |
| XdpRing.Ring.SenderStep | kernel/linux/ena/ena_netdev.c:227-273 | Each step of the senders, between two steps of the cleaner, keeps the books and the completion marks |
| XdpRing.Ring.MarkOne | kernel/linux/ena/ena_xdp.c:649-692 | A completion marks its packet exactly when it is well formed and its id has a packet with bytes |
| XdpRing.Ring.MarkCompleted | kernel/linux/ena/ena_xdp.c:649-692 | Marked are exactly the packets marked before and those of the completions read, which end at the budget, at the end of what is there, or at an unusable one |
| XdpRing.Ring.ReleaseCompleted | kernel/linux/ena/ena_xdp.c:698-751 | Whatever the completion order, each pass releases the longest completed prefix of the packets in flight, none of them empty, acknowledges exactly their entries, reports exactly the socket's frames, never passes next_to_use, and ends |
| XdpRing.Ring.CleanTxZc | kernel/linux/ena/ena_xdp.c:623-757 | Released are the packets in flight that were completed before or in this pass, up to the first one that was not; their entries are acknowledged and the socket has heard of exactly the released frames; completions are left over only beyond the budget or behind an unusable one |
| XdpRing.Ring.EmptyFrameBlocks | kernel/linux/ena/ena_xdp.c:698-751 | When the oldest packet in flight is a frame of length zero, no later pass releases, acknowledges or reports anything, whatever is sent and completed |
| Mapping.HeaderAndPiecesAreThePacket | kernel/linux/ena/ena_netdev.c:3264-3316 | Header and mapped pieces are the packet's bytes, each once and in order, for every linear part, fragment list and header limit |
| Mapping.TooManyIff | kernel/linux/ena/ena_netdev.h:952-980 | The check fires exactly when the mapped pieces and the swallowed fragments exceed the limit |
| Mapping.SwallowedFragmentIsCounted | kernel/linux/ena/ena_netdev.h:952-980 | A packet that needs one buffer and is turned away at a limit of one |
| Mapping.ReadsAllIff | kernel/linux/ena/ena_netdev.h:837-838 | The device reads exactly the pieces if and only if none exceeds a 16-bit length |
| Mapping.TxBuffer.MapFrags | kernel/linux/ena/ena_netdev.h:810-845 | The fragments behind the header are mapped in order, one buffer each, unless a mapping fails |
| Mapping.GivesBackIff | kernel/linux/ena/ena_netdev.c:885-913 | Giving back the recorded addresses and lengths, in the way each was mapped, gives back exactly what was mapped if and only if no piece exceeds a 16-bit length |
| Mapping.TxBuffer.Unmap | kernel/linux/ena/ena_netdev.c:885-913 | The recorded ranges of the buffers in use are given back, each once, the linear part as linear memory and the fragments as pages |
| Mapping.TxBuffer.TxMapSkb | kernel/linux/ena/ena_netdev.c:3251-3332 | It succeeds unless a mapping fails; success leaves header, header length and buffers for exactly the packet in both modes, failure leaves no mapping behind if and only if no piece mapped before exceeds a 16-bit length |
| Mapping.TxBuffer.MapPacket | kernel/linux/ena/ena_netdev.c:3225-3332 | After the linearize check a mapped packet has at most the allowed number of buffers and all its bytes |
| Mapping.TxBuffer.TxMapMbuf | kernel/fbsd/ena/ena_datapath.c:859-972 | Pushed header and recorded segments are the mbuf's bytes, in order; a failed load leaves nothing attached, and so does one without segments, which is reported as success |
| Mapping.PacketReachesDevice | kernel/fbsd/ena/ena-com/ena_eth_com.c:439-596 | End to end: a device that decodes the ring and reads the buffers has the packet's bytes, if and only if no piece was too long |
| Netmap.FrameLengths | kernel/fbsd/ena/ena_netmap.c:551-758 | Header length plus buffer lengths are the packet length |
| Netmap.FrameBytes | kernel/fbsd/ena/ena_netmap.c:551-758 | The buffers hold exactly the bytes behind the pushed header, in order |
| Netmap.UsesTheChainIff | kernel/fbsd/ena/ena_netmap.c:720-756 | Exactly the packet's slots are consumed if and only if its last slot is not empty, or it is alone on a low-latency queue |
| Netmap.WholeChainIff | kernel/fbsd/ena/ena_netmap.c:720-756 | The mapping loop takes all bytes of a chain if and only if they are fewer than 65536 |
| Netmap.GivenBackRestoresBuffers | kernel/fbsd/ena/ena_netmap.c:767-797 | Every slot has its buffer and length back |
| Netmap.GivenBackKeepsPacketIff | kernel/fbsd/ena/ena_netmap.c:787-795 | A packet given back is still that packet if and only if it has one slot or nothing was consumed |
| Netmap.Sender.CountSlots | kernel/fbsd/ena/ena_netmap.c:472-484 | The slots of the packet are counted, across the end of the ring |
| Netmap.Sender.PacketLen | kernel/fbsd/ena/ena_netmap.c:486-500 | The sum of the slot lengths modulo 2^16 |
| Netmap.Sender.UnmapLastSocketChain | kernel/fbsd/ena/ena_netmap.c:767-797 | From any point of mapping, all maps are unloaded, all consumed slots are given back and the index is where it was |
| Netmap.Sender.MapSlots | kernel/fbsd/ena/ena_netmap.c:551-764 | It succeeds unless a slot or the header cannot be reached; success consumes the slots and leaves the buffers, failure at any slot gives everything back |
| Netmap.Sender.TxFrame | kernel/fbsd/ena/ena_netmap.c:389-470 | The packet is written to the submission queue with these buffers and without offloads, or index and buffers are as before; the queue refuses it only by the verdict of its checks, and never for the burst budget when it fits one burst |
| TimerExclusion.NeverInsideTogether | kernel/fbsd/ena/ena.c:3315-3325 | In every run in which nobody clears the reset flag during the check, timer and cleaner are never in the queue together |
| TimerExclusion.ClearingDuringTheCheckBreaksIt | kernel/fbsd/ena/ena.c:3315-3325 | A run that clears the flag during the check and has both inside |
| TimerExclusion.NoProbeAfterEarlyReturn | kernel/fbsd/ena/ena_datapath.c:89-121 | In every undisturbed run in which the cleaner returns early for a reset, unless the timer has just seen the flag cleared, the timer does not look into the queue until the reset is over |
| TimerExclusion.NoProbeWhileScheduled | kernel/fbsd/ena/ena.c:3315-3325 | In every run in which a scheduled cleaning does not start, the timer does not look into the queue, however often it fires |
| TimerExclusion.OnlyOwnSteps | kernel/fbsd/ena/ena_datapath.c:66-121 | Only its own steps move a cleaner, but for the task that starts one that is away; an interrupt meanwhile stays scheduled |
| TimerExclusion.NoCleaningWithoutInterrupt | kernel/fbsd/ena/ena_datapath.c:66-121 | In every run without an interrupt a cleaner that is away and not scheduled stays away |
| TimerExclusion.EightRounds | kernel/fbsd/ena/ena_datapath.c:99-121 | However much there is to do, a cleaner makes eight rounds unless a reset or the interface going down stops it, and then clears its flag |
| Dim.SignificantIff | kernel/linux/ena/dim.h:22-23 | A difference is significant exactly from eleven percent of a positive reference on, and never for a negative one |
| Dim.FirstDifferenceDecides | kernel/linux/ena/net_dim.c:135-161 | The first of bytes, packets and events that differs by eleven percent decides, where more bytes, more packets and fewer events are better; a zero reference counts as level only for no rate at all |
| Dim.EachBetterThanTheOther | kernel/linux/ena/net_dim.c:135-161 | The comparison is not antisymmetric: two measurements of which each is better than the other |
| Dim.BitGapCountsEvents | kernel/linux/ena/dim.h:29-30 | The gap of a wrapping counter is the number of events modulo its width |
| Dim.RateIsLeast | kernel/linux/ena/dim.c:55-78 | A rate that fits is the least whole number covering the count |
| Dim.StatsAreRates | kernel/linux/ena/dim.c:55-78 | Packets, bytes and the 64 events of a measurement go each into their own rate, over any wrap of the counters |
| Dim.DecisionIsSafe | kernel/linux/ena/net_dim.c:163-214 | Every decision keeps index, tiredness and step counters in range and moves the profile by at most one |
| Dim.AlwaysSafe | kernel/linux/ena/net_dim.c:102-214 | From the zeroed state and for all statistics, every state of the search is safe |
| Dim.MovingSearchParks | kernel/linux/ena/net_dim.c:163-214 | A moving search with tiredness t parks within 11 - t decisions |
| Dim.ParksTiredAtTheMaximum | kernel/linux/ena/dim.c:48-53 | Tired parking starts at ten and leaves the profile |
| Dim.TiredParkingRunsDown | kernel/linux/ena/net_dim.c:178-182 | Tired parking takes one off per decision, whatever the statistics, and the decision that reaches zero moves on |
| Dim.DecisionHeeds | kernel/linux/ena/net_dim.c:163-214 | In terms of the statistics: a moving search goes on in its direction exactly when they got better and turns otherwise; when it parks, and where; a search on top leaves exactly when they are not the same, to the left but at profile 0 |
| Dim.Dim.Decision | kernel/linux/ena/net_dim.c:163-214 | The object goes through the decisions of the search, heeds the statistics as `DecisionHeeds` says, and remembers them unless it stays on top |
| Dim.Dim.NetDim | kernel/linux/ena/net_dim.c:216-250 | Decisions happen only after 64 events and never while a profile is still to be applied; they heed the rates of the measurement just ended |
| Rss.ParsePrinted | kernel/fbsd/ena/ena_rss.h:92-101 | Round trip: every table, printed and parsed over any previous table, is that table |
| Rss.LastWriteWins | kernel/fbsd/ena/ena_sysctl.c:1183-1225 | The last write to an index wins |
| Rss.UnwrittenStays | kernel/fbsd/ena/ena_sysctl.c:1183-1225 | An index that is not written keeps its value |
| Rss.NumberArrivesIff | kernel/fbsd/ena/ena_sysctl.c:1184-1210 | A number is taken as written if and only if it is an unsigned 32-bit number |
| Rss.Saturates | kernel/fbsd/ena/ena_sysctl.c:1184 | What `strtol` gives is a 64-bit number, between the one that was written and every other |
| Rss.NumberOrNone | kernel/fbsd/ena/ena_sysctl.c:1184-1210 | Every text starts with blanks, a sign or none and digits, or has no number there |
| Rss.NoIndexIsInvalid | kernel/fbsd/ena/ena_sysctl.c:1184-1191 | A text without a number in front is invalid |
| Rss.IndexVerdict | kernel/fbsd/ena/ena_sysctl.c:1193-1208 | An index of 128 and more, or a negative one, is out of range; behind any other index, the end and everything but a colon are invalid |
| Rss.QueueVerdict | kernel/fbsd/ena/ena_sysctl.c:1210-1225 | A queue that there is not, or a negative one, is out of range; any other makes a pair |
| Rss.NoQueueIsInvalid | kernel/fbsd/ena/ena_sysctl.c:1210-1216 | No number behind the colon is invalid |
| Rss.WideNumbersWrap | kernel/fbsd/ena/ena_sysctl.c:1184-1210 | Four numbers that are taken for others |
| Rss.Indir.NextPair | kernel/fbsd/ena/ena_sysctl.c:1183-1223 | One turn of the loop reads the next pair or stops with its error |
| Rss.Indir.Parse | kernel/fbsd/ena/ena_sysctl.c:1183-1225 | The pairs before the first error are written in order, all of them if there is none |
| Rss.Indir.CopyIndirBuf | kernel/fbsd/ena/ena_rss.h:92-101 | For queues below 128 the whole text and its NUL fit the buffer |
| Rss.Indir.SetTable | kernel/fbsd/ena/ena_sysctl.c:1146-1241 | An accepted text takes effect, in the device if it can be stored there; any other leaves the device's table, to which the driver returns if it can be read; the two agree afterwards exactly when the device did not fail or nothing changed; the buffer shows the driver's table |

## Left out

- Admin queue, event notifications, clock, and device commands: not part of the rings.
- Allocation, DMA mapping and header access of the operating system: they succeed or fail at will; no segment of an mbuf is empty.
- Weak memory ordering: barriers are taken to make each modelled step sequentially consistent, and reading a completion after its phase bit is one step.
- Statistics, time stamps, logging, checksum fields of received packets, and LRO.
- Packets with neither header nor buffers on the FreeBSD ring: the queue engine covers them (`PrepareTx`), and so does the AF_XDP ring, where they are frames of length zero.
- Contents of the netmap header: the copy loop of kernel/fbsd/ena/ena_netmap.c:510-521 writes every part to the same place, so only the header's length is claimed.
- Netmap completions and receive: kernel/fbsd/ena/ena_netmap.c:866 advances the id index with the limit of the slots instead of the ring size.
- Ring state after a receive error or a burst that ran out has triggered a reset, and cleaning after a completion of the id being sent: the rings are rebuilt, or no longer conserved. `TxRing.Ring.XmitMbuf` still accounts for the ids after such a burst.
- The order of the stores that record a sent packet: on both rings the descriptor count, the size and next_to_use are written in one step, so a completion taken between them is not covered.
- XdpRing.Ring.SenderStep: sends nothing once the ids have run out, which can happen only with a packet in flight that holds no entry (`XdpRing.Ring.InFlight`).
- FreeBSD's read of the buffer table after a completion error: the Linux order is modelled, which leaves the loop first (kernel/linux/ena/ena_netdev.c:1100-1111).
- Queue depths smaller than the ring after a size backoff on FreeBSD, and `ena_start_xmit` around `ena_xmit_mbuf` apart from the stop/wake protocol and the last doorbell; its early return when the interface goes down leaves that doorbell out.
- Clearing TRIGGER_RESET: who may clear it, and when, is an assumption of the timer handshake.
- Completion statistics of the moderation samples: no decision depends on them.
- TxRing.Ring.XmitMbuf: requires fewer than 65535 buffers, and at least one buffer on a host-memory queue, which the mapping step provides; the other packets are the exceptions of `SpaceCheckSoundIff`.
- CompletionQueue.IoCq.RxPkt: the update of the submission queue's next_to_comp that ends the source function is made by its caller, `RxRing.Ring.RecordReturned`, because the two queues are separate objects.
- Netmap.Sender.TxFrame: requires that the lengths of the packet sum up to less than 65536; a longer chain is not sent whole (`WholeChainIff`), and the loops may leave it for slots that are not the packet's.
- Netmap.Sender.MapSlots: requires the same, and models one buffer record, the one of the request id in use.
- RxRing.Ring.ReceivePacket: relies on a device that completes each posted buffer once.
- Rss.Indir.SetTable: the device's own numbering of the queues, which the driver translates both ways, is not modelled.

# Verified model of the AXI4-Stream DMA drivers and their stream hardware

This project models, in Dafny, the parts of the repository that move data between
an FPGA and user memory, and proves what they promise. Function-like code is
modelled by functions; drivers and clocked hardware are classes whose methods
update fields and arrays, proved against a specification on values.

**The cyclic zero-copy ring** (`v2_xdma/software/driver/wz-xdma.c`). N = 2^k
descriptors form a ring. The device fills a buffer and then overwrites that buffer's
own descriptor with a writeback record; the service routine scans for writeback magic,
cuts the stream into blocks at end of packet and queues them; GETBUF hands a block out;
CONFIRM restores the descriptors word by word, the control word with its magic last.
`RingProtocol` is the state machine of device, scanner and application, in which every
descriptor word of a confirmation is a step of its own; `RingTheorems` holds what is
true in every reachable state; `RingDelivery` is the application's arithmetic on
blocks and mapped memory; `WzDriver` has the calls of the driver on its arrays;
`ServiceCall` and `ConfirmCall` tie the service routine and CONFIRM to the protocol. `Blocks` says what a division into packets is, `RingIndex` and `Words`
hold the wrap-around arithmetic, `Sequences` a fact about concatenation.

**The scatter-gather path** (`xdma-sgm.c`, `xdma-core.c`). A user buffer becomes
page-sized entries (`Pages`), coalesced descriptors (`Scatter`), a linked chain with
adjacency and the chunked request (`Transfer`), proved to pair every user byte with its
endpoint byte exactly once and in order. `Descriptors` has the descriptor words
and their bit fields. `Accounting` is the completion side: which queued transfers a
hardware descriptor count completes, over several interrupts.

**The stream hardware.** `AxisFifo` shows that the FIFO with its extra pointer bit,
separate address registers and two output stages is a queue, for every address width and
every schedule. `Source` is the packet source, `EndToEnd` follows its packets through
device fills, scanner and mapped memory into the application's check. `DataProducer` and
`DmaPacket` are the sample-driven packet generators, `Framing` and `Streams` the theory
of marked streams they share.

**The first driver version** (`axi4s2dmov.c`). `DataMover` is the protocol of DataMover,
interrupt handler and CONFIRM, one memory access a step; `DataMoverTheorems` its
guarantees; `DataMoverDriver` the ioctls and the handler on the driver's arrays;
`DataMoverWords` the words exchanged.

**The bitstream loader** (`xdma-bit.c`, compiled only with SD_ACCEL). `BitHeader` is the
header format with its parser, `BitStream` the streaming of the payload.

`Encodings` spells out the words that hardware, drivers and application exchange bit by
bit or by example, so that each side of an encoding stands on its own.

## What is assumed of the environment

- The XDMA device takes a descriptor only where it finds descriptor magic, fills the whole
  buffer unless the packet ends in it, follows the descriptor's next address, and
  overwrites the descriptor with a record that carries writeback magic, the end-of-packet
  flag and the length; every other bit of the record is arbitrary.
- The application confirms blocks in the order in which it got them, as `tester2.c` does.
- No scan round is unsafe in the sense of `RoundSafe`: the ring may be full, but the
  service routine does not read on when it is full and fully scanned, unless the queue stops it.
- The DataMover of the first driver version serves its commands in order and reports OKAY.
- Coherent memory is page aligned and below 4 GB, and `pci_map_sg` maps the bytes it is given.

Throughout, what the environment decides is universally quantified: interleavings, ready and
valid schedules, the content of writeback records, page tables, bus addresses,
allocation outcomes, vacancies and time-outs.

## Where the code does not do what it is for

Each item names the lemma that gives the exact condition or the failing input.

- The ring scan stops only at a slot without writeback magic. On a ring that is
  completely full and fully scanned it reads an old record again, and unless the queue
  happens to be full it runs past the device and can report a block that was never
  received (`RoundSafeIff`, `UnsafeRound`, `FullRingReportsTwice`).
- The scan loop has no bound of its own. A packet longer than the ring fills it without
  an end of packet, and then the service routine does not return (`ServiceEndsIff`,
  `LongPacketHangs`).
- CONFIRM only prints when an index is outside the ring and goes on; with such a last
  index its loop does not end (`WzExt.Confirm`).
- The page-fault handler compares with `>`: offsets in the one buffer behind the ring
  pass the check and index past the table (`FaultRightIff`).
- A second START forgets the buffer addresses it needs (`WzExt.Start`,
  `StartTwice`), so the ring theorems are about the first one.
- A GETBUF whose copy to user space fails loses the block (`WzExt.GetBuf`).
- In fixed-address mode a request of more than one chunk goes to the wrong endpoint
  addresses, because the position advances between chunks (`RequestRightIff`).
- A reset of the FIFO that lasts one cycle can leave a stale write address, and the
  first word after it is lost if it comes at once (`ResetWorksIff`, `ResetServesIff`,
  `ShortResetCorrupts`).
- A service of the scatter-gather engine that finds nothing done marks the head of the
  queue FAILED, and one in the middle of a transfer takes the whole transfer off
  the queue, so that the next service can hit a BUG_ON (`VerdictExact`, `ServiceAfterPartial`).
- An error of the hardware leaves the failed transfer on the queue (`ServiceFinalTransfer`).
- The bitstream loader returns 0 after a failed piece (`Hwicap.Download`, `ShortDownload`).
- Its size check adds two lengths in 32 bits; when the sum overflows, a file that is too
  short passes, and what lies behind it is written (`Hwicap.Download`, `EmptyFilePasses`).
- The last sample of a `dma_packet` packet contributes 14 words, not 16 (`PacketFrames`).

## Model

| member | source | states |
|---|---|---|
| `RingTheorems.ReachableInv` | v2_xdma/software/driver/wz-xdma.c:234-285 | from START on, every interleaving of device, scanner, GETBUF and CONFIRM steps in which no scan round is unsafe keeps the whole ring invariant; full rings included |
| `RingTheorems.StepInv` | v2_xdma/software/driver/wz-xdma.c:349-368 | each step by itself keeps it: fetching a descriptor, completing a buffer, examining one slot, popping one block, writing one descriptor word, publishing one descriptor |
| `RingProtocol.InitInv` | v2_xdma/software/driver/wz-xdma.c:234-285 | the state START leaves satisfies the invariant |
| `RingProtocol.FetchInv` | v2_xdma/software/driver/wz-xdma.c:265-269 | the device may take a descriptor only where it finds descriptor magic; then that slot is free and is the next one to fill |
| `RingProtocol.CompleteInv` | v2_xdma/software/driver/wz-xdma.c:265-269 | overwriting a descriptor with a writeback record of arbitrary content keeps every filled, unconfirmed slot recognisable |
| `RingProtocol.ScanSees` | v2_xdma/software/driver/wz-xdma.c:515-528 | unless the ring is full and fully scanned, what the scanner reads in a slot, including one whose confirmation is half done, is what the fill trace says about it |
| `RingProtocol.ScanExamineInv` | v2_xdma/software/driver/wz-xdma.c:515-564 | a safe round of the scan keeps the invariant |
| `RingProtocol.GetBufInv` | v2_xdma/software/driver/wz-xdma.c:441-456 | handing out the oldest queued block keeps it |
| `RingProtocol.ConfirmWriteInv` | v2_xdma/software/driver/wz-xdma.c:356-362 | restoring one word, in any order of the seven, keeps it |
| `RingProtocol.ConfirmPublishInv` | v2_xdma/software/driver/wz-xdma.c:363-367 | writing the control word last frees exactly one buffer and moves on around the ring |
| `RingProtocol.AllFieldsRestored` | v2_xdma/software/driver/wz-xdma.c:356-364 | once the seven words and the control word are written the descriptor is the saved one |
| `RingTheorems.RingOrder` | v2_xdma/software/driver/wz-xdma.c:518-548 | freed <= start of block <= scanned <= filled <= freed + N; the stored indices are these counters modulo N; within that lap writeback magic marks exactly the filled buffers |
| `RingTheorems.ExactlyOnce` | v2_xdma/software/driver/wz-xdma.c:528-564 | the queued blocks are the fill trace divided at its end-of-packet marks, each once and in order; what was handed out is a prefix; no complete packet was passed over; for a block FIFO of any capacity |
| `RingTheorems.ScanIsComplete` | v2_xdma/software/driver/wz-xdma.c:517-523 | a scan that ends at a slot without writeback magic has queued every complete packet |
| `RingTheorems.QueueNeverFull` | v2_xdma/software/driver/wz-xdma.c:127-137 | with the N entries ALLOC gives the kfifo the postponing branch is not taken, unless the ring is full and fully scanned |
| `RingTheorems.SafePublication` | v2_xdma/software/driver/wz-xdma.c:355-365 | a slot that shows descriptor magic equals its saved copy in every word and is none the application still owns |
| `RingTheorems.OverrunProtection` | v2_xdma/software/driver/wz-xdma.c:265-269 | an idle device finds a descriptor if and only if some buffer is free |
| `RingTheorems.DeviceSparesApplication` | v2_xdma/software/driver/wz-xdma.c:349-368 | the buffer and the descriptor the device writes are none of those filled and not confirmed |
| `RingTheorems.ScanRightIff` | v2_xdma/software/driver/wz-xdma.c:511-565 | a round of the scan concludes what the fill trace says if and only if a buffer is free or a filled one is still unscanned |
| `RingTheorems.RoundSafeIff` | v2_xdma/software/driver/wz-xdma.c:511-565 | a round keeps the invariant if and only if a buffer is free, or a filled one is unscanned, or the kfifo is full in front of a packet in the oldest buffer |
| `RingTheorems.UnsafeRound` | v2_xdma/software/driver/wz-xdma.c:511-565 | an unsafe round moves the scan one beyond the device, and a block it reports is one more than were received |
| `RingTheorems.FullRingReportsTwice` | v2_xdma/software/driver/wz-xdma.c:511-565 | two buffers, a kfifo of two, two packets, the first block handed out and not confirmed: a third block is queued that equals the first and was never received |
| `Blocks.CutIsDivision` | v2_xdma/software/driver/wz-xdma.c:528-548 | the blocks of a fill trace partition it: each starts after the previous one and ends at its first end of packet |
| `Blocks.DivisionIsUnique` | v2_xdma/software/driver/wz-xdma.c:528-548 | there is only one such partition |
| `RingIndex.NextSlotIsMod` | v2_xdma/software/driver/wz-xdma.c:546 | the masked increment is the remainder by N for every power of two N |
| `RingIndex.SlotIsMod` | v2_xdma/software/driver/wz-xdma.c:563 | after j increments the index is j modulo N |
| `RingIndex.DistanceOfSlots` | v2_xdma/software/tester/tester2.c:138 | within a lap the index difference modulo N is the number of advances |
| `RingIndex.WindowCovers` | v2_xdma/software/driver/wz-xdma.c:367 | any N consecutive counters visit every index |
| `Words.MaskIsMod` | v2_xdma/software/driver/wz-xdma.c:546 | bitwise AND with 2^k - 1 is the remainder by 2^k, for all naturals |
| `Words.MaskedStep` | v2_xdma/software/tester/tester2.c:150 | masking the offset at every step gives what masking the total once gives |
| `WzDriver.WzExt.LinkRing` | v2_xdma/software/driver/wz-xdma.c:237-263 | every descriptor points at its successor and the last at the first; which slots have a descriptor afterwards, also when an allocation fails; a descriptor already present makes its buffer address be forgotten |
| `WzDriver.WzExt.FillRing` | v2_xdma/software/driver/wz-xdma.c:277-285 | every descriptor has the control word 0xAD4B0002, its own address as writeback address, its buffer and length, and equals its copy |
| `WzDriver.WzExt.Start` | v2_xdma/software/driver/wz-xdma.c:221-324 | every outcome code, the indices, the descriptors present, the published ring, and that it has the buffer addresses ALLOC gave if and only if no buffer with an address had a descriptor before; a transfer the engine refuses is not reported |
| `WzDriver.StartTwice` | v2_xdma/software/driver/wz-xdma.c:239-245 | after a second START every descriptor of the ring sends its data to address 0 |
| `WzDriver.WzExt.ServiceCyclicInterrupt` | v2_xdma/software/driver/wz-xdma.c:499-577 | on any ring, any number of rounds of the loop compute the scan from block_scanned_desc; when it is over, an engine that is no longer busy is taken down with its transfer |
| `WzDriver.WzExt.GetBuf` | v2_xdma/software/driver/wz-xdma.c:437-465 | the code for a signal, a stopped engine and a failed copy; the oldest block leaves the queue, even if its copy fails |
| `WzDriver.WzExt.Confirm` | v2_xdma/software/driver/wz-xdma.c:333-369 | from any slot of the ring, the call ends if and only if the last index is a slot of the ring; restored are exactly the slots the loop has come to, those on the arc from first to last when it ends; none if the request cannot be read |
| `WzDriver.ArcOfBlock` | v2_xdma/software/driver/wz-xdma.c:349-368 | for the announced ends of a block that arc is exactly the slots of its buffers |
| `WzDriver.StartOpensSession` | v2_xdma/software/driver/wz-xdma.c:277-285 | what START publishes is a well-formed session of the protocol |
| `ServiceCall.FreeSlotStops` | v2_xdma/software/driver/wz-xdma.c:517-523 | while the ring is not full the slot the device fills next ends the loop |
| `ServiceCall.LoopEndsIff` | v2_xdma/software/driver/wz-xdma.c:511-565 | on any descriptors the loop ends if and only if some slot has no writeback magic or has end of packet |
| `ServiceCall.ServiceEndsIff` | v2_xdma/software/driver/wz-xdma.c:511-565 | a service call ends if and only if a buffer is free or one that is not given back ends a packet |
| `ServiceCall.LongPacketHangs` | v2_xdma/software/driver/wz-xdma.c:511-565 | a ring of any size, filled with a packet that does not end in it: the scan of a call is still going after any number of rounds |
| `ServiceCall.ServiceIsScan` | v2_xdma/software/driver/wz-xdma.c:510-565 | any number of rounds of a service call are a run of scan steps of the protocol; the call falls short only at its end, where unless the kfifo is full every complete packet is queued, or on a full ring at an unsafe round; while a buffer is free it is over one round after the filled ones |
| `ConfirmCall.ConfirmIsRun` | v2_xdma/software/driver/wz-xdma.c:349-368 | one uninterrupted CONFIRM of the oldest block is a run of the protocol: it restores exactly the arc of its ends, frees its buffers and changes nothing else |
| `RingDelivery.FaultRightIff` | v2_xdma/software/driver/wz-xdma.c:36-48 | the page fault finds a page if and only if the offset is inside the buffers, and refuses only from one whole buffer further on |
| `RingDelivery.FaultMapsItsPage` | v2_xdma/software/driver/wz-xdma.c:44-50 | a fault r bytes into buffer b maps the page r / 4096 frames behind the first frame of that buffer |
| `RingDelivery.FaultReadsBuffer` | v2_xdma/software/driver/wz-xdma.c:36-52 | with buffers of whole pages, the byte at the offset in the page a fault maps is the byte of the buffer at that user offset, wherever the buffers lie |
| `RingDelivery.WrappedDistance` | v2_xdma/software/tester/tester2.c:138 | taking the index difference modulo 2^32 first does not change it modulo N |
| `RingDelivery.OffsetIsMod` | v2_xdma/software/tester/tester2.c:150 | for buffers of 2^m bytes the masked offset is the offset modulo the total length |
| `RingDelivery.LengthIsRight` | v2_xdma/software/tester/tester2.c:138 | cur_len of a block the application owns is the number of bytes the device received for it |
| `RingDelivery.ExtentIntact` | v2_xdma/software/driver/wz-xdma.c:36-48 | byte i of a block lies at user offset (first * BUFLEN + i) modulo the total, through the fault handler's division into buffers |
| `RingDelivery.BlockIntact` | v2_xdma/software/tester/tester2.c:131-150 | as long as the application owns a block, every byte it reads there is the byte received |
| `RingDelivery.BlockReadsThroughPages` | v2_xdma/software/driver/wz-xdma.c:36-52 | the same through the page table: what physical memory holds in the page mapped for any byte of an owned block is the byte received |
| `RingDelivery.BlockCanBeOwned` | v2_xdma/software/driver/wz-xdma.c:528-551 | a packet does get through: there is a run after which the application owns its block |
| `Pages.CapacitySuffices` | v2_xdma/software/driver/xdma-sgm.c:51-51 | a mapper for count bytes has room for the pages of any buffer of count bytes without address overflow |
| `Pages.CapacityIsTight` | v2_xdma/software/driver/xdma-sgm.c:51-51 | two bytes across a page boundary need the two extra pages |
| `Pages.CapacityIsNeeded` | v2_xdma/software/driver/xdma-sgm.c:51 | for a count that is not whole pages or one byte more, some buffer fills the whole capacity |
| `Pages.SgMapping.constructor` | v2_xdma/software/driver/xdma-sgm.c:41-73 | the capacity and the empty mapping of a new mapper |
| `Pages.SgMapping.GetUserPages` | v2_xdma/software/driver/xdma-sgm.c:103-227 | the return code of every path; on success the entries cover exactly the bytes start .. start + count, in order, each within one page |
| `Pages.SgMapping.Populate` | v2_xdma/software/driver/xdma-sgm.c:176-216 | neither BUG_ON on the remaining count fires, and the entries concatenate to the buffer |
| `Descriptors.LinkKeepsFields` | v2_xdma/software/driver/xdma-core.c:2047-2076 | linking sets magic, successor and zero adjacency and keeps the control byte and the reserved bits |
| `Descriptors.ControlKeepsFields` | v2_xdma/software/driver/xdma-core.c:2117-2127 | replacing the control byte keeps magic, adjacency and reserved bits |
| `Descriptors.AdjacentKeepsFields` | v2_xdma/software/driver/xdma-core.c:2089-2114 | the adjacency reads back as stored and nothing else changes |
| `Descriptors.SetTransferReadsBack` | v2_xdma/software/driver/xdma-core.c:2183-2208 | host address, endpoint address and length read back in both directions; control and successor survive |
| `Descriptors.MagicsDiffer` | v2_xdma/software/include/xdma-core.h:160-162 | no control word carries both descriptor magic and writeback magic |
| `Scatter.CoalesceMoves` | v2_xdma/software/driver/xdma-core.c:2818-2898 | the coalesced blocks move the same (host byte, endpoint byte) pairs in the same order as the scatter list, forced or not, incrementing or not |
| `Scatter.CoalesceBounded` | v2_xdma/software/driver/xdma-core.c:2831-2844 | if every entry fits a page, every descriptor is at most 2^18 - 1 bytes |
| `Scatter.CoalesceSplits` | v2_xdma/software/driver/xdma-core.c:2834-2847 | unforced, two neighbouring descriptors are discontiguous or the first exceeds 2^18 - 1 - 4096 bytes |
| `Scatter.Coalesce` | v2_xdma/software/driver/xdma-core.c:2818-2898 | at least one and at most as many blocks as entries; exactly as many when forced |
| `Scatter.TransferBuild` | v2_xdma/software/driver/xdma-core.c:2800-2899 | the loop writes exactly these blocks to the first descriptors and leaves every control and next word alone |
| `Scatter.BuildMoves` | v2_xdma/software/driver/xdma-core.c:2800-2899 | what transfer_build writes moves exactly the bytes of the list |
| `Transfer.DescAlloc` | v2_xdma/software/driver/xdma-core.c:1972-2037 | the allocated descriptors form a list with magic in each and a null pointer in the last |
| `Transfer.TransferCreate` | v2_xdma/software/driver/xdma-core.c:2956-2987 | the result is a chain: linked in order, STOPPED in the last only, adjacency set, carrying the coalesced blocks |
| `Transfer.SetAdjacency` | v2_xdma/software/driver/xdma-core.c:2983-2987 | filling in the adjacency completes the chain and disturbs no block |
| `Transfer.WalkVisitsAll` | v2_xdma/software/driver/xdma-core.c:1992-2033 | a device that follows the next addresses from the first descriptor visits each one once, in order, and is stopped by the last |
| `Transfer.DeviceRunsAll` | v2_xdma/software/driver/xdma-core.c:1992-2033 | what the device does on its walk is every block of the chain, once and in order, and then it stops |
| `Transfer.BurstsStayInside` | v2_xdma/software/driver/xdma-core.c:2096-2109 | the descriptors fetched as adjacent to a successor are inside the transfer and inside one 4 KB page |
| `Transfer.AdjacencyIsGreatest` | v2_xdma/software/driver/xdma-core.c:2096-2111 | no neighbour is left out: the adjacency of a descriptor is 15, or one more would leave the transfer, or one more would leave the page |
| `Transfer.FirstBurstStaysInside` | v2_xdma/software/driver/xdma-core.c:868-875 | so is the first burst engine_start programs |
| `Transfer.ChunksAddUp` | v2_xdma/software/driver/xdma-core.c:3241-3302 | in incrementing mode the chunks at their advanced positions are the request |
| `Transfer.RequestRightIff` | v2_xdma/software/driver/xdma-core.c:3297-3301 | the chunked request pairs every byte rightly if and only if the mode is incrementing or one chunk of 8 MB is enough |
| `Transfer.FaithfulMapExists` | v2_xdma/software/driver/xdma-core.c:2944-2946 | there is a mapping that keeps the promise asked of pci_map_sg: no more segments than entries, the same bytes in order |
| `Transfer.OneTransfer` | v2_xdma/software/driver/xdma-core.c:3249-3251 | pinning, mapping and building one chunk gives a chain on which the walk of the device pairs exactly its user bytes with its endpoint bytes; a page that cannot be pinned is the BUG_ON |
| `Transfer.Attempt` | v2_xdma/software/driver/xdma-core.c:3249-3295 | a completed chunk extends what has been moved and gives 0; a failed transfer or creation gives -5, an interrupted one -512, and what has been moved is as before |
| `Transfer.TransferData` | v2_xdma/software/driver/xdma-core.c:3227-3308 | count is returned if and only if every chunk completes; the first chunk that does not ends the request with -5, or -512 after a signal, and the position advances by the chunks before it; the BUG_ON fires exactly at the first unpinnable page; with count returned what was moved is exactly the request if and only if the mode is incrementing or one chunk is enough |
| `Transfer.ProgressComplete` | v2_xdma/software/driver/xdma-core.c:3304-3307 | a request that moved count bytes has made every pairing of the request, under the condition above and only then |
| `Accounting.VerdictExact` | v2_xdma/software/driver/xdma-core.c:1167-1193 | COMPLETED are exactly the transfers whose cumulative descriptor count is within the hardware count; FAILED is the one the count ends inside, or the head when nothing was done |
| `Accounting.AtMostOneFails` | v2_xdma/software/driver/xdma-core.c:1252-1273 | no two transfers fail in one service, and completion is downward closed in queue order |
| `Accounting.BugIff` | v2_xdma/software/driver/xdma-core.c:1231-1233 | the null-transfer BUG_ON fires if and only if the queue is empty or the count exceeds the queued total |
| `Accounting.PoppedIsCut` | v2_xdma/software/driver/xdma-core.c:1167-1193 | the loop stops in front of the first transfer the count does not go beyond |
| `Accounting.ServeBoundary` | v2_xdma/software/driver/xdma-core.c:1409-1435 | a count that ends transfer j takes exactly the first j transfers and adds their descriptors to desc_dequeued |
| `Accounting.ServiceComposes` | v2_xdma/software/driver/xdma-core.c:1425-1435 | serving the first i transfers and then the first j is serving the first j, with 32-bit counters that may have wrapped |
| `Accounting.ServiceAfterPartial` | v2_xdma/software/driver/xdma-core.c:1252-1278 | after a service in the middle of a transfer the next one hits the BUG_ON if and only if the queue is then empty or that transfer is still unfinished |
| `Accounting.Engine.Enqueue` | v2_xdma/software/driver/xdma-core.c:2293-2346 | a queued transfer goes to the tail, is SUBMITTED and starts an idle engine; a shutdown request refuses it |
| `Accounting.Engine.ServiceTransferList` | v2_xdma/software/driver/xdma-core.c:1156-1196 | the loop on the linked transfers completes and removes exactly the popped prefix and accounts for its descriptors |
| `Accounting.Engine.ServiceFinalTransfer` | v2_xdma/software/driver/xdma-core.c:1227-1288 | error flags fail the current transfer and keep it queued; otherwise it is removed, COMPLETED or FAILED by its count |
| `Accounting.Engine.Account` | v2_xdma/software/driver/xdma-core.c:1409-1435 | both parts together: verdicts, queue, desc_dequeued, and when the BUG_ON fires |
| `Accounting.Engine.Resume` | v2_xdma/software/driver/xdma-core.c:1316-1346 | a stopped engine with work and no shutdown request is restarted with desc_dequeued 0 |
| `Accounting.Engine.Service` | v2_xdma/software/driver/xdma-core.c:1356-1447 | one whole service with the writeback word of its caller: source of count and status, the error code, stopping, verdicts for every queued transfer, restart; a stopped engine only has its status read, if the word is zero |
| `AxisFifo.Fifo.constructor` | v2_xdma/kc705-xdma-v2-stream-adc/hdl/design/axis_fifo_64.v:63-75 | the power-up registers |
| `AxisFifo.Fifo.PosedgeClk` | v2_xdma/kc705-xdma-v2-stream-adc/hdl/design/axis_fifo_64.v:95-185 | the always blocks compute the next registers from the old ones |
| `AxisFifo.FlagsExact` | v2_xdma/kc705-xdma-v2-stream-adc/hdl/design/axis_fifo_64.v:77-81 | full is equivalent to 2^A words stored and empty to none, for every address width |
| `AxisFifo.EdgeRefines` | v2_xdma/kc705-xdma-v2-stream-adc/hdl/design/axis_fifo_64.v:111-185 | one clock edge on the registers is one step of a bounded queue with two stages behind it |
| `AxisFifo.PipeIsQueue` | v2_xdma/kc705-xdma-v2-stream-adc/hdl/design/axis_fifo_64.v:133-173 | one step of the stages is one step of a plain queue: the head leaves if taken, an accepted word joins |
| `AxisFifo.OutputStable` | v2_xdma/kc705-xdma-v2-stream-adc/hdl/design/axis_fifo_64.v:169-184 | a word at the output stays until it is taken |
| `AxisFifo.OutputArrives` | v2_xdma/kc705-xdma-v2-stream-adc/hdl/design/axis_fifo_64.v:133-173 | any word inside is at the output within two cycles in which nothing is taken |
| `AxisFifo.ScheduleKeepsWords` | v2_xdma/kc705-xdma-v2-stream-adc/hdl/design/axis_fifo_64.v:95-185 | over any schedule without reset: contents + accepted = delivered + contents |
| `AxisFifo.FifoIsQueue` | v2_xdma/kc705-xdma-v2-stream-adc/hdl/design/axis_fifo_64.v:63-185 | from power-up, words accepted = words delivered ++ words inside, in order, with at most 2^A + 2 inside |
| `AxisFifo.ResetWorksIff` | v2_xdma/kc705-xdma-v2-stream-adc/hdl/design/axis_fifo_64.v:111-118 | after a reset edge every schedule is served rightly if and only if the next write pointer has address 0 at that edge; the read address does not matter |
| `AxisFifo.ResetRun` | v2_xdma/kc705-xdma-v2-stream-adc/hdl/design/axis_fifo_64.v:111-185 | exactly what is delivered after a reset edge, for every schedule: the accepted words with the old content of slot 0 for a first word stored elsewhere |
| `AxisFifo.ResetServesIff` | v2_xdma/kc705-xdma-v2-stream-adc/hdl/design/axis_fifo_64.v:111-118 | one schedule after a reset edge is served rightly if and only if the write address is 0, or no word comes in the first cycle, or nothing is delivered, or slot 0 holds that word |
| `AxisFifo.TwoResetCyclesWork` | v2_xdma/kc705-xdma-v2-stream-adc/hdl/design/axis_fifo_64.v:147-156 | after a second reset cycle without input every schedule is served rightly |
| `AxisFifo.ShortResetCorrupts` | v2_xdma/kc705-xdma-v2-stream-adc/hdl/design/axis_fifo_64.v:111-118 | from power-up, for every depth above one: one word passes, reset is high for one cycle, and for the next word accepted the first one is delivered again |
| `Source.StreamSource.constructor` | v2_xdma/src/data/axi4s_src3.vhd:113-119 | after reset nothing has been sent and nothing is offered |
| `Source.StreamSource.Reset` | v2_xdma/src/data/axi4s_src3.vhd:113-119 | a reset at any time leaves the state of a new source |
| `Source.StreamSource.PosedgeClk` | v2_xdma/src/data/axi4s_src3.vhd:110-168 | under any tready and start_pkt the beats sent are whole packets as their headers announce and the start of one; an offered beat waits unchanged |
| `Source.StreamSource.SendPkt` | v2_xdma/src/data/axi4s_src3.vhd:145-163 | taking a beat continues or completes the packet |
| `Streams.BlocksArePackets` | v2_xdma/software/driver/wz-xdma.c:528-548 | the blocks of a fill trace carry the packets of the stream in the buffers |
| `Streams.ExpandPackets` | v2_xdma/src/data/axi4s_src3.vhd:110-168 | dividing into packets and writing beats as bytes commute |
| `EndToEnd.CheckBlock` | v2_xdma/software/tester/tester2.c:126-158 | the two error flags are exactly the length mismatch, with an int for the expected length, and some wrong payload word; the first block is not checked |
| `EndToEnd.WordsArrive` | v2_xdma/software/tester/tester2.c:151-153 | every word the application reads in a block is the word of the packet the source sent |
| `EndToEnd.LengthArrives` | v2_xdma/software/tester/tester2.c:138 | the computed length is 32 bytes for every beat of the packet |
| `EndToEnd.PayloadArrives` | v2_xdma/software/tester/tester2.c:148-158 | every payload word is init + t * step + j as the header announces |
| `EndToEnd.CheckNeverFails` | v2_xdma/software/tester/tester2.c:126-158 | for every interleaving neither error branch is taken |
| `EndToEnd.BlocksPassTheCheck` | v2_xdma/software/tester/tester2.c:137-147 | cur_len equals 32 times the length in the header |
| `EndToEnd.PacketsSpanSixBuffers` | v2_xdma/src/data/axi4s_src3.vhd:128 | no packet spans more than six buffers of 4 MB |
| `DataProducer.Generator.constructor` | v2_xdma/kc705-xdma-v2-stream-adc/hdl/design/data_producer_64.v:95-108 | power-up: idle, counters unknown |
| `DataProducer.Generator.Reset` | v2_xdma/kc705-xdma-v2-stream-adc/hdl/design/data_producer_64.v:111-114 | reset makes it idle and leaves the group counter |
| `DataProducer.Generator.PosedgeClk` | v2_xdma/kc705-xdma-v2-stream-adc/hdl/design/data_producer_64.v:110-180 | the clocked block and the output assignments; an offered beat waits unchanged |
| `DataProducer.SendsIdeal` | v2_xdma/kc705-xdma-v2-stream-adc/hdl/design/data_producer_64.v:110-180 | whatever the schedule, beat n is word n modulo 16384, last at 0x3FFF, sent after sample n / 16 |
| `DataProducer.BeginsIff` | v2_xdma/kc705-xdma-v2-stream-adc/hdl/design/data_producer_64.v:118-122 | an idle generator begins a packet in a cycle if and only if dma_ena and fifo_prog_empty are both high in it |
| `DataProducer.NothingUnpermitted` | v2_xdma/kc705-xdma-v2-stream-adc/hdl/design/data_producer_64.v:118-122 | a schedule from idle without such a cycle sends nothing, whatever new_sample and ready do |
| `DataProducer.PacketsPermitted` | v2_xdma/kc705-xdma-v2-stream-adc/hdl/design/data_producer_64.v:118-148 | in any schedule from idle no more packets are begun than there are such cycles |
| `DataProducer.NeverHeader` | v2_xdma/kc705-xdma-v2-stream-adc/hdl/design/data_producer_64.v:117-148 | the state HEADER is never entered |
| `DataProducer.ProducerFrames` | v2_xdma/kc705-xdma-v2-stream-adc/hdl/design/data_producer_64.v:110-180 | cut at tlast the beats are packets of exactly 16384 numbered words and the start of one, sixteen words to a sample |
| `DataProducer.PacketTime` | v2_xdma/kc705-xdma-v2-stream-adc/hdl/design/data_producer_64.v:117-148 | never made to wait, a packet takes 17409 cycles |
| `Framing.FramedIsPackets` | v2_xdma/kc705-xdma-v2-stream-adc/hdl/design/data_producer_64.v:177-180 | a stream that follows an endless repetition of a packet divides into copies of it |
| `DmaPacket.Generator.constructor` | v2_xdma/kc705-xdma-v2-stream-adc/hdl/design/dma_packet.v:79-82 | disabled: idle, word counter 0 |
| `DmaPacket.Generator.PosedgeClk` | v2_xdma/kc705-xdma-v2-stream-adc/hdl/design/dma_packet.v:78-148 | the clocked block, next-state and output logic; an offered beat waits unchanged |
| `DmaPacket.SendsIdeal` | v2_xdma/kc705-xdma-v2-stream-adc/hdl/design/dma_packet.v:78-148 | whatever the schedule, every beat is the header or data word its number says |
| `DmaPacket.PacketFrames` | v2_xdma/kc705-xdma-v2-stream-adc/hdl/design/dma_packet.v:78-148 | packets are 0x4010, 0xA5 and the words 2 to 0x7FF with tlast on the last only; sixteen words to a sample, the 128th sample giving 14 |
| `DmaPacket.PacketTime` | v2_xdma/kc705-xdma-v2-stream-adc/hdl/design/dma_packet.v:78-148 | never made to wait, a packet takes 2177 cycles |
| `DataMoverWords.StatusDecodes` | v1_dmover/software/driver/axi4s2dmov.c:131-144 | tag and OKAY read back, and the length does if and only if it is below 2^22 |
| `DataMoverWords.CommandedLengthSurvives` | v1_dmover/software/driver/axi4s2dmov.c:165-169 | the greatest length a command asks for is below that, so no length is ever cut |
| `DataMoverWords.PackUnpacks` | v1_dmover/software/driver/axi4s2dmov.c:270 | buffer number and length can be told apart in what GET returns, and it is not negative |
| `DataMoverWords.PackedIsRight` | v1_dmover/software/driver/axi4s2dmov.c:270-271 | what GET returns for one of at most 16 buffers unpacks to its number and length and is no error code |
| `DataMover.StartedInv` | v1_dmover/software/driver/axi4s2dmov.c:241-247 | START establishes the ring invariant |
| `DataMover.StepInv` | v1_dmover/software/driver/axi4s2dmov.c:138-149 | every single access of the handler, CONFIRM and the DataMover keeps it |
| `DataMoverTheorems.ReachableInv` | v1_dmover/software/driver/axi4s2dmov.c:235-289 | so does every interleaving |
| `DataMoverTheorems.NeverWrongBuffer` | v1_dmover/software/driver/axi4s2dmov.c:140-142 | the incorrect-buffer branch is never taken and every index is in range |
| `DataMoverTheorems.ReadyWindow` | v1_dmover/software/driver/axi4s2dmov.c:143-149 | bready is set exactly on the cyclic window from received_buf to exp_buf |
| `DataMoverTheorems.GetDelivers` | v1_dmover/software/driver/axi4s2dmov.c:264-271 | GET returns the transfers in the order made, each until it is confirmed, with its own length |
| `DataMoverTheorems.NeverOverrun` | v1_dmover/software/driver/axi4s2dmov.c:280-288 | no outstanding command is for a ready buffer, and no two are for the same one |
| `DataMoverTheorems.BuffersConserved` | v1_dmover/software/driver/axi4s2dmov.c:160-179 | commands + unread statuses + ready buffers + the ones in hand = BUF_NUM |
| `DataMoverTheorems.HandlerRound` | v1_dmover/software/driver/axi4s2dmov.c:138-149 | the four accesses of a handler round compose to the round |
| `DataMoverTheorems.ConfirmRound` | v1_dmover/software/driver/axi4s2dmov.c:283-287 | the four accesses of CONFIRM compose to CONFIRM |
| `DataMoverDriver.Axi4s2Dmov.Start` | v1_dmover/software/driver/axi4s2dmov.c:235-255 | refused when started; otherwise no buffer ready and one command per buffer in order |
| `DataMoverDriver.Axi4s2Dmov.Get` | v1_dmover/software/driver/axi4s2dmov.c:264-271 | there is an answer exactly when the next buffer is ready, and the application reads the number and the length of that buffer from it |
| `DataMoverDriver.GetAnswersNext` | v1_dmover/software/driver/axi4s2dmov.c:264-271 | in every interleaving that is the buffer and the length of the oldest transfer nobody has confirmed |
| `DataMoverDriver.Axi4s2Dmov.Confirm` | v1_dmover/software/driver/axi4s2dmov.c:280-288 | -EINVAL and no change for a buffer that is not ready; otherwise the buffer is taken back and submitted again |
| `DataMoverDriver.Axi4s2Dmov.Irq` | v1_dmover/software/driver/axi4s2dmov.c:108-156 | the handler performs the rounds of all responses before the first that is not an OKAY status, which it drops only if it has read it |
| `DataMoverDriver.HandlerDrains` | v1_dmover/software/driver/axi4s2dmov.c:120-150 | one handler call is a run of the protocol |
| `BitHeader.ReadField` | v2_xdma/software/driver/xdma-bit.c:257-270 | the copying loop reads one tagged string as the parser specification does |
| `BitHeader.ReadPreamble` | v2_xdma/software/driver/xdma-bit.c:223-247 | the magic loop likewise |
| `BitHeader.ParseHeader` | v2_xdma/software/driver/xdma-bit.c:208-348 | the whole parser likewise |
| `BitHeader.ParseExact` | v2_xdma/software/driver/xdma-bit.c:208-348 | a header is accepted if and only if it is the printed form of well-formed fields, and HeaderLength is the length of that form; only the byte after the magic is free |
| `BitHeader.RoundTrip` | v2_xdma/software/driver/xdma-bit.c:208-348 | parsing a printed header gives it back, whatever follows |
| `BitStream.Hwicap.Write` | v2_xdma/software/driver/xdma-bit.c:184-206 | size words of the buffer, big-endian, are written in order, and the core's answer decides the code |
| `BitStream.Hwicap.Helper` | v2_xdma/software/driver/xdma-bit.c:351-372 | whatever the answers of the core, the words written are the next words of the buffer, as many as these answers let through, and an error is reported exactly when they end it early |
| `BitStream.FeedOkIff` | v2_xdma/software/driver/xdma-bit.c:358-371 | so does each piece |
| `BitStream.Hwicap.Burst` | v2_xdma/software/driver/xdma-bit.c:359-367 | a round writes as many words as the vacancy just read has room for, and no more than are left; without room it is an error |
| `BitStream.FeedHasRoom` | v2_xdma/software/driver/xdma-bit.c:358-364 | over a whole piece never more words are written than the vacancies read made room for |
| `BitStream.Hwicap.Pieces` | v2_xdma/software/driver/xdma-bit.c:409-417 | likewise over all pieces of the payload |
| `BitStream.PiecesOkIff` | v2_xdma/software/driver/xdma-bit.c:409-417 | the payload gets through if and only if every answer used was good; a failure without time-out means that words are missing |
| `BitStream.Hwicap.Download` | v2_xdma/software/driver/xdma-bit.c:375-432 | for every file, with the memory behind it as far as it is read: the return codes and the words written; a return of 0 means that the payload is in and the FPGA has finished if and only if every answer used was good; a file that holds its header but not its payload passes the size check if and only if the sum of the lengths overflows |
| `BitStream.ShortDownload` | v2_xdma/software/driver/xdma-bit.c:414-415 | every well-formed file, a core without room: nothing is written and the loader returns 0 |
| `BitStream.EmptyFilePasses` | v2_xdma/software/driver/xdma-bit.c:398-401 | a header of 26 bytes that announces 4 GB passes the size check with nothing behind it |
| `BitStream.WordsCarryBytes` | v2_xdma/software/driver/xdma-bit.c:189-191 | the words written carry the bytes of the payload once each and in order |
| `BitStream.FileStreams` | v2_xdma/software/driver/xdma-bit.c:405-417 | for a header followed by a payload of whole words the words of a complete download are exactly the payload |
| `Encodings.DescriptorBits` | v2_xdma/software/include/xdma-core.h:120-160 | a control word is a descriptor if its upper half is 0xAD4B, and stops the device if bit 0 is set |
| `Encodings.AdjacencyField` | v2_xdma/software/driver/xdma-core.c:2089-2114 | the adjacency is bits 8 to 11 |
| `Encodings.ExamineBits` | v2_xdma/software/driver/wz-xdma.c:515-564 | for every status word: upper half 0x52B4 and bit 0 set is reported, or postponed without room; 0x52B4 and bit 0 clear advances; anything else ends the scan |
| `Encodings.DeviceRecordBits` | v2_xdma/software/driver/wz-xdma.c:517-528 | what the device stores: 0x52B4, any fifteen bits, and the end-of-packet flag in bit 0 |
| `Encodings.Directions` | v2_xdma/software/driver/xdma-core.c:2183-2208 | host memory is the source of a transfer to the device and the destination of one from it |
| `Encodings.OptionsMean` | v2_xdma/software/driver/xdma-core.c:2846-2871 | when the endpoint address is fixed and when every entry has its own descriptor |
| `Encodings.PhysicalAddress` | v2_xdma/software/driver/xdma-sgm.c:176-216 | a user address keeps its offset in the frame of its page |
| `Encodings.StatusRegister` | v2_xdma/software/include/xdma-core.h:110-118 | busy is bit 0, error is any of bits 3, 4, 9 to 13 and 19 to 23 |
| `Encodings.WritebackWord` | v2_xdma/software/driver/xdma-core.c:1366-1371 | the count is the low 24 bits, the error flag bit 31 |
| `Encodings.HeaderBeat` | v2_xdma/src/data/axi4s_src3.vhd:134-138 | the fields of the header the source sends |
| `Encodings.HeaderRead` | v2_xdma/software/tester/tester2.c:32-45 | the reader takes init and step from the same bits, whatever the others are |
| `Encodings.CounterIsLinear` | v2_xdma/src/data/axi4s_src3.vhd:139-149 | the counter of data beat t is init + t * step in 32 bits |
| `Encodings.CounterBeat` | v2_xdma/src/data/axi4s_src3.vhd:150-152 | word j of a beat is its counter plus j |
| `Encodings.LittleEndian` | v2_xdma/software/tester/tester2.c:23-31 | words lie in memory lowest byte first |
| `Encodings.ProducerWords` | v2_xdma/kc705-xdma-v2-stream-adc/hdl/design/data_producer_64.v:174-180 | tvalid, tdata and tlast of the first generator |
| `Encodings.HeaderState` | v2_xdma/kc705-xdma-v2-stream-adc/hdl/design/data_producer_64.v:124-127 | what its state HEADER would do |
| `Encodings.PacketizerWords` | v2_xdma/kc705-xdma-v2-stream-adc/hdl/design/dma_packet.v:107-128 | tvalid, tdata and tlast of the second |
| `Encodings.StatusBits` | v1_dmover/software/driver/axi4s2dmov.c:129-144 | a status is OKAY if bit 7 is set; tag and length by example |
| `Encodings.ResponseBits` | v1_dmover/software/driver/axi4s2dmov.c:123-136 | the handler takes a response of one word whose bit 7 is set |
| `Encodings.HandlerMeans` | v1_dmover/software/driver/axi4s2dmov.c:144-149 | a round records the length of the buffer named in the status, marks it ready and expects the next |
| `Encodings.CommandBits` | v1_dmover/software/driver/axi4s2dmov.c:165-167 | the first word of a command |
| `Encodings.PackedBits` | v1_dmover/software/driver/axi4s2dmov.c:270 | what GET returns, by example |
| `Encodings.ExampleHeader` | v2_xdma/software/driver/xdma-bit.c:215-341 | a whole header, byte by byte |
| `Encodings.StringsEndInNul` | v2_xdma/software/driver/xdma-bit.c:269-270 | a string is accepted only with its final NUL |
| `Encodings.BigEndianWord` | v2_xdma/software/driver/xdma-bit.c:189-191 | payload words go most significant byte first |
| `Encodings.PiecesOfOneKilobyte` | v2_xdma/software/driver/xdma-bit.c:409-416 | 2048 bytes are two pieces |
| `Encodings.Constants` | v2_xdma/software/include/xdma-core.h:92-95 | page, descriptor, chunk and packet sizes, and the error codes |

## Left out

- WzDriver.WzExt.Confirm: starts at a slot of the ring; from another first index the driver writes outside its table.
- WzDriver.WzExt.ServiceCyclicInterrupt: a loop that need not end is modelled by its first rounds, for any number of them; likewise in Confirm.
- WzDriver.WzExt.Start: the kfifo is not reset by START, and a session is taken to begin with it empty; the addresses of freed descriptors are not returned to the allocator.
- WzDriver.WzExt.GetBuf: how its wait ends and whether the copy succeeds are inputs.
- Pages.SgMapping.GetUserPages: assumes page counts that fit an int and a mapper without mapped pages, which the driver's BUG_ON demands.
- Transfer.OneTransfer: the descriptor memory can be allocated; the driver does not look whether it was.
- Transfer.TransferData: coherent memory below 4 GB and a mapping of the scatter list that covers the same bytes in at most as many entries are what the DMA API promises; both are hypotheses.
- Transfer.BurstsStayInside: descriptor memory starts on a page boundary, as coherent memory does.
- Accounting.Engine.Service: asynchronous requests, performance counters and the clearing of the polling record are left out.
- Source.StreamSource.PosedgeClk: resetn is high (Reset is the other case, after which the record of beats begins anew); the pseudorandom register and the delay counter are inputs.
- DataProducer.ProducerFrames: a reset in the middle of a packet cuts it short; the theorem is about a run from idle without reset.
- DmaPacket.PacketFrames: likewise for disabling in the middle of a packet.
- DataMoverDriver.Axi4s2Dmov.Start: a session begins with empty command and status FIFOs, as after RESET.
- DataMoverDriver.Axi4s2Dmov.Irq: tags are below the number of buffers, which the protocol proves for commands served in order; BUF_NUM is at most 16 because tags have four bits (axi4s2dmov.h is not part of this model).
- BitStream.Hwicap.Download: the memory behind the file is as long as what the parser and the download read of it, and the header lies within the first 4 GB of it.
- STOP, FREE and restart of the ring: STOP clears addresses that a later START needs.
- Cache synchronisation, locks, wait queues and memory barriers appear only as the atomicity and order of steps.
- The three words of a DataMover command are represented by the buffer number.
- `sgm_kernel_pages`, `sg_aio_read_write`, poll mode, performance and register ioctls, device probing, character devices: plumbing or close copies of modelled code.
- The original `rx_result` ring: its setup is commented out.
- MCAP loading, clock wizard, hot reset and the rest of the SD_ACCEL code: timing driven.
- The vendor FIFO behind the packet generators: its ready signal is an input.
- v1 RESET, STOP and the mapping of single buffers; `ax_dma1.c`, which does not compile.

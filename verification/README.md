# A verified model of the NFP driver's data path, area manager and BAR allocator

Dafny models of three stateful parts of the Netronome NFP kernel driver (tree
`ec-nfp-drv-kmods`), with proofs of what they promise.

**Data path and reconfiguration** (`src/nfp_net_common.c`). Free-running 32-bit
ring counters over a power-of-two ring, a device that moves its own pointers,
packets that are mapped and unmapped piece by piece, transmit and completion
racing on a stop flag, a control-message queue in front of a ring, receive with
buffer exchange for XDP transmits, firmware commands from posters, a timer and
one synchronous caller, and the transaction that replaces a running ring
configuration.

**CPP area manager** (`src/nfp_dev_cpp.c`). Placement of requested areas in an
offset space, attaching and evicting user mappings over a scarce set of windows,
and splitting of reads and writes.

**BAR allocator** (`src/nfp_plat.c`). Reference-counted runs of windows that are
shared when their contents agree.

## Layout

| file | subject |
|---|---|
| `Words.dfy` | 32-bit arithmetic, ring masks, slots |
| `TxRing.dfy` | one transmit ring's counters and the device's pointers |
| `TxLifecycle.dfy` | mapping, queueing, completing and resetting packets |
| `TxInterleaving.dfy` | transmit and completion, one memory access at a time |
| `TxOwnership.dfy` | mappings and buffers under that interleaving |
| `BusyStop.dfy` | when a stopped queue is stopped for good |
| `CtrlQueue.dfy` | control messages: queue, ring, poll |
| `RxBuffers.dfy`, `RxXdp.dfy` | where every receive buffer is; the receive path itself |
| `ReconfigProtocol.dfy`, `Reconfig.dfy` | firmware commands: the protocol, and the driver's methods as its steps |
| `RingReconfig.dfy` | open, close and ring reconfiguration |
| `AreaPlacement.dfy`, `AreaMapping.dfy`, `ChunkedAccess.dfy` | the area manager |
| `BarAllocator.dfy`, `BarInterleaving.dfy` | the BAR allocator; its concurrent users |

Objects the driver updates in place are classes. Each method is proved against a
specification function or an invariant, and the promises are lemmas about those;
the module-level `AnyRun` methods close over arbitrary runs. Concurrent contexts are state
machines whose steps are single memory accesses or locked sections. Kernel
services are ledgers: DMA mappings, buffers, page references, ring memory and
interrupts are sets that a service may only take from or add to under its
kernel rules, so a verified caller cannot release anything twice or forget it.
Services may fail at every call; failures are counted, so that contracts can say
that nothing fails without a cause.

Facts taken from the rest of the driver: ring sizes are powers of two between
256 and 2^18, every vNIC has at least one vector and one stack ring, and
synchronous reconfigurations are serialised.

## Where the code does less than its comments say

* **A stale timer callback.** `nfp_net_reconfig()` deletes the timer without
  waiting for a callback that has already started. That callback later clears
  the active flag of a newer command, and the next post overwrites the command
  in flight, although posts promise to start only when the machinery is idle.
  `OneCommandAtATime` proves the promise for all runs in which no callback meets
  a command in flight without a synchronous caller about, `CallbackBreaksIff`
  that exactly those callbacks do harm, and `StaleCallbackHappens` gives a run.
  No request is lost even then (`NoRequestLost`).
* **The busy branch of `nfp_net_tx()`** stops the queue without rechecking.
  `BusyStopIsForGoodIff` proves, for every ring size, that this stop is for good
  exactly when completion has already gone idle over an empty ring;
  `StoppedForGoodIff` is the general statement, `BusyStopCanStrand` shows that
  the case is reachable, and `RingStopIsNeverForGood` that the other stop,
  `nfp_net_tx_ring_stop()`, has no such case.
* **Receive ring reset** takes slot `wr_p` for empty. `PackLosesIff` says when
  that loses a buffer; a ring that was stocked but never filled loses the one in
  slot 0. The comment excludes that ring, but a failed start of the firmware
  resets one.
* **Area placement** computes ends modulo 2^64. The collision check is right iff
  the request ends inside the space or starts in its last page
  (`CheckIsExactIff`), and a granted range that wraps always breaks placement
  (`WrapBreaksPlacement`). The comment says "first available slot", but the
  code tries offset 0 and then the ends of the areas in list order:
  `PlacementSkipsAGap` has it pass over a free page, and `PlacementIsLowestIff`
  says when the placement is the lowest free offset.
* **User mappings** are matched to an area by ends computed modulo 2^64, too: the
  test is right iff the range ends inside the space (`SelectionIsExactIff`). The
  pages shown are those of the range iff it starts where the area does
  (`MappingShowsItsRangeIff`).
* **The file position** keeps its target only while the offset stays below 2^40
  (`PositionRoundTrip`).
* **Sharing first** holds for an undisturbed acquisition (`ChooseSharesFirst`,
  `AloneIsChoose`). The lock is dropped between the attempt to share and the
  attempt to allocate. `SharingCanBeOverlookedIff` proves that exactly the
  requests that fit both classes of windows can come to program fresh windows
  although the other class could be shared by then; `FreshOnlyWithoutMatch` is
  what remains for them.
* **Completion** advances `rd_p` before it reads the slot. That is safe only
  because the full test keeps one slot free, which `NoSlotIsClobbered` uses; the
  null test of the slot's skb in the completion loop never succeeds.

## Model

| member | source | states |
|---|---|---|
| `Words.DIdxOfCounter` | ec-nfp-drv-kmods/src/nfp_net.h:146 | The slot macro applied to a wrapped 32-bit counter gives the slot of the unbounded descriptor number, for every ring size the driver accepts. |
| `Words.MaskIsMod` | ec-nfp-drv-kmods/src/nfp_net.h:146 | Masking with 2^k - 1, bit by bit, is the remainder modulo 2^k; the bitwise form is defined digit by digit and knows nothing of remainders. |
| `Words.RingSizeFacts` | ec-nfp-drv-kmods/src/nfp_net_ethtool.c:404-409 | A ring size rounded to a power of two between the limits divides 2^32, which is what lets free-running counters wrap without losing their slot. |
| `TxRings.TxFullExact` | ec-nfp-drv-kmods/src/nfp_net_common.c:633-637 | The full test on wrapped counters is exact in the true counts: it holds iff the ring would be left without its one spare slot. |
| `TxRings.StaleReadIsSafe` | ec-nfp-drv-kmods/src/nfp_net_common.c:622-636 | A full test made with an older read counter can only be pessimistic, and room it reports is still there when the descriptors are written. |
| `TxRings.CounterDistance` | ec-nfp-drv-kmods/src/nfp_net_common.c:633-636 | The word difference of two wrapped counters is the true distance, before and after either wraps. |
| `TxRings.TodoExact` | ec-nfp-drv-kmods/src/nfp_net_common.c:991-1000 | The masked difference of the pointer register and its saved copy is the true number of new completions, although each is only known modulo the ring size; equal words mean nothing new. |
| `TxRings.TodoNeedsTheGap` | ec-nfp-drv-kmods/src/nfp_net_common.c:1000 | Without the one-slot gap the same computation would be wrong: a ring that completes exactly its size reports nothing. |
| `TxRings.QcpPtrAdd` | ec-nfp-drv-kmods/src/nfp_net.h:743-759 | However large the doorbell value, the register writes add up to it exactly and none exceeds what the hardware accepts; every write but the last is the maximum, and a last one after others is not empty. |
| `TxRings.TxRing.ReadDeviceRdPtr` | ec-nfp-drv-kmods/src/nfp_net.h:787-803 | What the pointer register yields: an 18-bit value that agrees with the device's true count modulo the ring size, while the device may move on at any time up to what it was told about. |
| `TxRings.TxRing.XmitMoreFlush` | ec-nfp-drv-kmods/src/nfp_net_common.c:776-781 | After the flush the device's write pointer equals the driver's and nothing is left to announce. |
| `TxRings.TxRing.XdpComplete` | ec-nfp-drv-kmods/src/nfp_net_common.c:1060-1099 | An XDP completion retires everything finished, or the per-poll maximum, says which, and never touches a buffer slot. |
| `TxRings.MaskedAdvance` | ec-nfp-drv-kmods/src/nfp_net_common.c:1079 | The software copy of the pointer, masked after each advance, stays congruent to the number of retired descriptors. |
| `TxLifecycle.TxQueue.constructor` | ec-nfp-drv-kmods/src/nfp_net_common.c:1148-1152 | A new ring owns no mapping and no buffer and satisfies the ring invariant. |
| `TxLifecycle.Ledger.DmaMap` | ec-nfp-drv-kmods/src/nfp_net_common.c:865-868 | The mapping service: it may fail leaving nothing, or return an address no live mapping uses; failures are counted. |
| `TxLifecycle.Ledger.DmaUnmap` | ec-nfp-drv-kmods/src/nfp_net_common.c:1013-1024 | Unmapping demands a live mapping of the same kind and length, so a verified caller undoes each mapping at most once and with the right size. |
| `TxLifecycle.RetireOldest` | ec-nfp-drv-kmods/src/nfp_net_common.c:1002-1033 | Retiring the oldest descriptor leaves the ledger exactly owned by the rest: its mapping is gone, and its buffer goes iff this was the packet's last descriptor. |
| `TxLifecycle.AppendPacket` | ec-nfp-drv-kmods/src/nfp_net_common.c:870-935 | Queueing a whole packet keeps packets contiguous and in order, and adds exactly one buffer to those held. |
| `TxLifecycle.TxQueue.Transmit` | ec-nfp-drv-kmods/src/nfp_net_common.c:817-970 | Busy iff the ring has no room, and then nothing changes but the stopped flag and the doorbell; otherwise the packet is queued whole at the end of the ring, or, iff it is refused or a mapping fails, every mapping and the buffer are given back and the write pointer has not moved. The queue is left stopped iff it was, or the ring was busy, or the packet leaves, in true counts, too little room for the largest one; the device is told of everything unless the packet was queued, the queue runs and more is announced, and then of nothing new. |
| `TxLifecycle.TxQueue.Queue` | ec-nfp-drv-kmods/src/nfp_net_common.c:851-970 | With room in the ring: queued whole, or undone completely, iff refused or a mapping failed; the queue is stopped iff it was or the queued packet leaves the ring nearly full, and the doorbell is held back only for a queued packet on a running queue with more announced. |
| `TxLifecycle.TxQueue.FillDescriptors` | ec-nfp-drv-kmods/src/nfp_net_common.c:865-933 | Head and fragments are mapped into consecutive slots; a failure at any of them leaves no staged descriptor, no mapping and only cleared slots. |
| `TxLifecycle.TxQueue.FillFragment` | ec-nfp-drv-kmods/src/nfp_net_common.c:904-932 | Each fragment goes to the slot after the last one, wrapping at the end of the ring; on failure the whole packet is unwound. |
| `TxLifecycle.TxQueue.Unwind` | ec-nfp-drv-kmods/src/nfp_net_common.c:945-961 | The error path walks the slots backwards from whichever fragment failed, wrapping below zero, and undoes every mapping of this call and of no other. |
| `TxLifecycle.TxQueue.GiveUp` | ec-nfp-drv-kmods/src/nfp_net_common.c:962-970 | Giving a packet up still announces earlier packets to the device and frees the buffer exactly once. |
| `TxLifecycle.TxQueue.Commit` | ec-nfp-drv-kmods/src/nfp_net_common.c:935-943 | Publishing moves the write pointer by the packet's descriptors, leaves the queue stopped iff it was or the ring, in true counts, is nearly full, and rings the doorbell iff no more is announced or the queue is stopped. |
| `TxLifecycle.TxQueue.RingStop` | ec-nfp-drv-kmods/src/nfp_net_common.c:658-667 | Without interference the queue ends up stopped iff the ring should not wake. |
| `TxLifecycle.TxQueue.Complete` | ec-nfp-drv-kmods/src/nfp_net_common.c:978-1058 | Completion retires, oldest first, exactly the descriptors the device has finished, and leaves the queue stopped iff it was and the pointer register showed nothing new or the ring, in true counts, has too little room; whenever something was retired the register did show something new. |
| `TxLifecycle.TxQueue.RetireOne` | ec-nfp-drv-kmods/src/nfp_net_common.c:1002-1033 | One pass of the completion loop reads the slot it has just given up and finds there the oldest descriptor. |
| `TxLifecycle.TxQueue.Reset` | ec-nfp-drv-kmods/src/nfp_net_common.c:1109-1159 | A reset releases whatever was never transmitted: no mapping and no buffer is left, and all counters start over. |
| `TxLifecycle.StagedNothing` | ec-nfp-drv-kmods/src/nfp_net_common.c:945-961 | The set of live mappings is determined by the descriptors they belong to, so undoing a packet restores exactly the mappings there were before. |
| `TxLifecycle.AnyRun` | ec-nfp-drv-kmods/src/nfp_net_common.c:817-1159 | For any given sequence of transmits, completions, resets and device progress on a new ring: each transmit queues its packet whole behind the others or, with a reason, changes nothing; it stops the queue exactly when the ring is too full for this packet or the next one, and holds the doorbell back exactly for announced packets on a running queue; a completion takes the oldest, all that the device has finished, and starts the queue if it took something and left room; a reset leaves nothing; and at every moment the live mappings and unfreed buffers are exactly those of the pending descriptors. |
| `TxInterleaving.StepKeepsInv` | ec-nfp-drv-kmods/src/nfp_net_common.c:658-1058 | One memory access of transmit, completion or the device, in any order, keeps counters, slots, saved pointer, stop flag and doorbell consistent. |
| `TxInterleaving.RunKeepsInv` | ec-nfp-drv-kmods/src/nfp_net_common.c:658-1058 | Every state reachable by any interleaving satisfies that invariant. |
| `TxInterleaving.NoLostWakeUp` | ec-nfp-drv-kmods/src/nfp_net_common.c:658-667 | In any interleaving, once both contexts are idle a queue stopped by the ring-stop helper really is short of room: no wake-up is ever lost. |
| `TxInterleaving.CountersAgree` | ec-nfp-drv-kmods/src/nfp_net_common.c:621-636 | In every reachable state the wrapped difference is the true fill level and stays below the ring size even with a packet in progress; between packets the device's pointer plus the unannounced count is the write pointer, and a stopped queue has nothing unannounced. |
| `TxInterleaving.NoSlotIsClobbered` | ec-nfp-drv-kmods/src/nfp_net_common.c:1002-1033 | Completion, which advances the read counter before reading the slot, always finds the descriptor it is retiring; transmit only ever writes vacant slots. |
| `TxInterleaving.NotFreedWhileRead` | ec-nfp-drv-kmods/src/nfp_net_common.c:935-943 | Until transmit has read the socket buffer for the last time, after the write counter has moved, the device has been told of none of the packet's descriptors, so completion cannot have freed it and each is still in its slot. |
| `TxInterleaving.PollIsExact` | ec-nfp-drv-kmods/src/nfp_net_common.c:991-1000 | At every poll the computed number of completions is exact, whatever 18-bit value the register shows, and an unchanged register means there are none. |
| `TxInterleaving.WakeIsMonotone` | ec-nfp-drv-kmods/src/nfp_net_common.c:639-647 | More descriptors in the ring never turn 'should not wake' into 'should wake', so the recheck may use the newest write counter. |
| `TxInterleaving.TxKeepsWake` | ec-nfp-drv-kmods/src/nfp_net_common.c:658-667 | Every transmit step keeps the promise that a stopped queue with room has someone about to look at it. |
| `TxInterleaving.CplKeepsWake` | ec-nfp-drv-kmods/src/nfp_net_common.c:1047-1053 | Every completion step keeps that promise too. |
| `TxInterleaving.StartsAndStopsHaveGrounds` | ec-nfp-drv-kmods/src/nfp_net_common.c:658-1053 | In every interleaving a stopped queue is started only by a context that, at a step of the run, saw room for it, completion at its wake test or transmit at its recheck, and has done nothing else since; a running one is stopped only by a transmit that saw the ring nearly full or without room for its packet. |
| `TxInterleaving.PublishedAlone` | ec-nfp-drv-kmods/src/nfp_net_common.c:935-943 | In any reachable state, a published packet that is not interfered with leaves the queue stopped iff it was or the ring is nearly full, and the device told of everything unless more is announced on a running queue: the sequential operation's outcome. |
| `TxInterleaving.RoomTestAlone` | ec-nfp-drv-kmods/src/nfp_net_common.c:838-849 | Likewise at the head of transmit: filling begins iff there is room for the packet; without room the queue is stopped and everything announced. |
| `TxInterleaving.GivenUpAlone` | ec-nfp-drv-kmods/src/nfp_net_common.c:945-970 | Likewise for a packet given up after any number of its pieces were mapped: no counter moves, the queue is as before, and what was announced earlier is told to the device. |
| `TxInterleaving.WakeTestAlone` | ec-nfp-drv-kmods/src/nfp_net_common.c:1047-1053 | Likewise for the end of completion: a stopped queue is started iff there is room. |
| `BusyStop.StoppedForGoodIff` | ec-nfp-drv-kmods/src/nfp_net_common.c:658-1058 | For every ring size and in every state the threads can be in between two packets, a stopped queue can never be started again by any further steps iff the ring is empty and completion is not at work. |
| `BusyStop.BusyStopIsForGoodIff` | ec-nfp-drv-kmods/src/nfp_net_common.c:840-845 | The stop that does not recheck is for good iff, when it is made, completion has already gone idle over an empty ring. |
| `BusyStop.RingStopIsNeverForGood` | ec-nfp-drv-kmods/src/nfp_net_common.c:658-667 | The stop that rechecks never is: in every reachable state some continuation starts the queue again. |
| `BusyStop.BusyStopCanStrand` | ec-nfp-drv-kmods/src/nfp_net_common.c:838-849 | The bad case of the busy stop is reachable: a run from a new 256-slot ring leaves the queue stopped over an empty ring with both contexts idle. |
| `BusyStop.StrandedForever` | ec-nfp-drv-kmods/src/nfp_net_common.c:838-849 | From a stopped queue over an empty ring with both contexts idle, no step of any context or of the device changes anything. |
| `TxOwnership.StepKeepsBooks` | ec-nfp-drv-kmods/src/nfp_net_common.c:817-1058 | With the kernel's books carried beside the interleaved machine, each step of transmit, completion or the device keeps them exact: who owns each live mapping, which buffers are unfreed, where packets end. |
| `TxOwnership.EachExactlyOnce` | ec-nfp-drv-kmods/src/nfp_net_common.c:817-1058 | In every interleaving no mapping is undone twice and no buffer freed twice or read after it is freed; exactly the descriptors in the ring and those being written have live mappings, and exactly their packets, with the one in hand, are unfreed. |
| `TxOwnership.NothingIsForgotten` | ec-nfp-drv-kmods/src/nfp_net_common.c:978-1058 | With both contexts idle and the ring empty, no mapping is live and no buffer is held. |
| `CtrlQueue.OrderMeans` | ec-nfp-drv-kmods/src/nfp_net_common.c:1954-1973 | What the order equation says: messages reach the ring in submission order, everything waiting was submitted after everything sent, and a message in neither place is exactly a dropped one. |
| `CtrlQueue.SurvivorsIncrease` | ec-nfp-drv-kmods/src/nfp_net_common.c:1954-1973 | The messages that are not dropped, in order, are exactly the submitted numbers without the dropped ones. |
| `CtrlQueue.DropOne` | ec-nfp-drv-kmods/src/nfp_net_common.c:1944-1951 | Dropping one message on an error takes just that message out of the order. |
| `CtrlQueue.NotInRing` | ec-nfp-drv-kmods/src/nfp_net_common.c:1890-1940 | A message about to be sent shares no buffer with one still in the ring. |
| `CtrlQueue.CtrlVec.TxOne` | ec-nfp-drv-kmods/src/nfp_net_common.c:1870-1952 | A message is queued iff it is whole and the ring is full, at the tail if new and at the head if it came from the queue; else it is sent iff it can carry its metadata and the mapping succeeds, and dropped otherwise. A sent message is mapped with 8 more bytes and has 8 less headroom iff the application has metadata. Order and ring contents stay exact. |
| `CtrlQueue.CtrlVec.Send` | ec-nfp-drv-kmods/src/nfp_net_common.c:1901-1951 | With room the message goes on the ring and to the device at once, mapped with 8 more bytes and with 8 less headroom iff the application has metadata, or a failed mapping drops it alone. |
| `CtrlQueue.CtrlVec.CtrlTx` | ec-nfp-drv-kmods/src/nfp_net_common.c:1954-1964 | Submitting keeps the lock-free invariant: order exact, and a non-empty queue means a full ring, so a new message can never overtake a waiting one. A message sent at once carries its metadata and is mapped in full. |
| `CtrlQueue.CtrlVec.TxQueued` | ec-nfp-drv-kmods/src/nfp_net_common.c:1966-1973 | Entered with room on the ring, it sends from the head until the queue is empty or the ring is full again; as many sendable messages are dropped as mappings failed, no more and no fewer. |
| `CtrlQueue.CtrlVec.Poll` | ec-nfp-drv-kmods/src/nfp_net_common.c:2079-2093 | A poll retires everything the device has finished and refills the ring in order, restoring the invariant; sendable messages are dropped exactly as often as a mapping failed. |
| `RxBuffers.AllDistinct` | ec-nfp-drv-kmods/src/nfp_net_common.c:1266-1373 | The slots between the read and write counters, the XDP slots and the packet in hand hold pairwise different buffers. |
| `RxBuffers.Exchange` | ec-nfp-drv-kmods/src/nfp_net_common.c:1580-1588 | Swapping the received buffer with the spent one in a transmit slot keeps every buffer in exactly one place. |
| `RxBuffers.Replace` | ec-nfp-drv-kmods/src/nfp_net_common.c:1784-1792 | Replacing the received buffer by a fresh one keeps every buffer in exactly one place. |
| `RxBuffers.PackFilled` | ec-nfp-drv-kmods/src/nfp_net_common.c:1307-1313 | On a filled ring, moving the last entry into the empty slot packs every live buffer into slots 0 to cnt-2. |
| `RxBuffers.PackLosesIff` | ec-nfp-drv-kmods/src/nfp_net_common.c:1307-1313 | The packing step loses a buffer iff the slot it takes for empty holds one that is nowhere else on the list. |
| `RxBuffers.ResetUnfilledLoses` | ec-nfp-drv-kmods/src/nfp_net_common.c:1298-1318 | Resetting a ring that was stocked but never filled does lose a buffer, the case the function's comment excludes. |
| `RxXdp.PagePool.AllocOne` | ec-nfp-drv-kmods/src/nfp_net_common.c:1213-1257 | Allocation or mapping may fail, and then no page and no mapping is left; a success returns a page nobody holds. |
| `RxXdp.RxRing.GiveOne` | ec-nfp-drv-kmods/src/nfp_net_common.c:1266-1294 | Giving a buffer fills exactly the slot behind the write counter, clears its done bit, and announces buffers to the device in whole batches, across wrap-around. |
| `RxXdp.BatchStep` | ec-nfp-drv-kmods/src/nfp_net_common.c:1286-1293 | The batch test on the wrapped counter fires exactly every sixteenth buffer of the true count. |
| `RxXdp.RxRing.DeviceRuns` | ec-nfp-drv-kmods/src/nfp_net_common.c:1651-1658 | The device may finish any announced buffer; done bits in the live window are set exactly for finished ones. |
| `RxXdp.RxVec.constructor` | ec-nfp-drv-kmods/src/nfp_net_common.c:1213-1373 | New rings hold no buffers. |
| `RxXdp.RxVec.RxDrop` | ec-nfp-drv-kmods/src/nfp_net_common.c:1536-1554 | Dropping a packet puts its own buffer back on the ring; an skb already built on it is freed, and page references are as before. |
| `RxXdp.RxVec.TxXdpBuf` | ec-nfp-drv-kmods/src/nfp_net_common.c:1557-1610 | Either the received buffer goes out and the spent buffer of its transmit slot comes back to the RX ring, a slot the device no longer has in flight; or the packet is dropped and its buffer returned, iff the ring is full even after reclaiming. It reclaims iff the ring was full and the poll had not done so yet, and then all that is finished or the per-call maximum. |
| `RxXdp.RxVec.SwapBuffers` | ec-nfp-drv-kmods/src/nfp_net_common.c:1580-1588 | The exchange is right although the second assignment reads the RX slot after the first wrote the ring: the two slots differ. |
| `RxXdp.RxVec.PassUp` | ec-nfp-drv-kmods/src/nfp_net_common.c:1779-1825 | The packet is handed to the stack iff the skb was built, a replacement was found and its port exists; the buffer given back is the packet's own or the replacement, no skb is left over, and the number of mapped buffers is unchanged. |
| `RxXdp.RxVec.Process` | ec-nfp-drv-kmods/src/nfp_net_common.c:1697-1825 | Every path of one received packet gives exactly one buffer back, its own, a fresh one or the spent one of its transmit slot; the packet meets a fate its verdict allows: passed up iff the verdict says so and memory lasts, sent out of the port iff the verdict says so and the XDP ring has room after reclaiming, and otherwise recycled. |
| `RxXdp.RxVec.TakePacket` | ec-nfp-drv-kmods/src/nfp_net_common.c:1651-1667 | A packet is taken iff the device has finished one: no stale done bit is ever read, and the buffer taken is the oldest. |
| `RxXdp.RxVec.Rx` | ec-nfp-drv-kmods/src/nfp_net_common.c:1624-1839 | Given one verdict per packet: the packets taken are, one by one, those at the head of the RX ring, and each is treated as its own verdict asks. The stack receives exactly the buffers of those passed up, in order, less those that ran out of memory, which are as many as allocations failed; the XDP write counter moves once for each bounced packet that was not refused, and one is refused only if the ring was full after reclaiming. A poll stops short of its budget only when the device has nothing more, reclaims at most once and always if it announces nothing, reports its full budget instead of its count exactly if finished slots remain then, and leaves the device told of all transmits. |
| `RxXdp.OldestFirst` | ec-nfp-drv-kmods/src/nfp_net_common.c:1651-1667 | Packets leave in the order their buffers lay on the ring when the poll began; nothing given back meanwhile overtakes them or overwrites them. |
| `RxXdp.BouncedInOrder` | ec-nfp-drv-kmods/src/nfp_net_common.c:1574-1609 | The buffers of the packets sent back out lie in the XDP ring's slots in the order they came, as far back as the ring is long. |
| `RxXdp.PositionsAfter` | ec-nfp-drv-kmods/src/nfp_net_common.c:1574-1667 | Over any packets both RX positions move once per packet and the XDP position once per packet bounced. |
| `TxRings.TxRing.FlushOrReclaim` | ec-nfp-drv-kmods/src/nfp_net_common.c:1828-1834 | After the loop the device has been told of everything queued; with nothing to announce, and unless the poll already did so, the read counter moves over everything the device has finished or the per-call maximum, and otherwise not at all; the answer says exactly whether some are left. |
| `RxXdp.RxVec.FillFreelist` | ec-nfp-drv-kmods/src/nfp_net_common.c:1381-1389 | Giving each slot its own buffer leaves the list as it was and the ring running with one slot empty. |
| `RxXdp.RxVec.Reset` | ec-nfp-drv-kmods/src/nfp_net_common.c:1303-1318 | Resetting a running ring keeps all mapped buffers and packs them for release, wherever the counters stood. |
| `RxXdp.RxVec.RxBufsFree` | ec-nfp-drv-kmods/src/nfp_net_common.c:1330-1348 | Each stocked buffer is unmapped and freed once and no other; null slots are passed over. |
| `RxXdp.RxVec.RxBufsAlloc` | ec-nfp-drv-kmods/src/nfp_net_common.c:1356-1373 | All cnt-1 slots are stocked iff no allocation fails; otherwise what was allocated is released. |
| `RxXdp.RxVec.TxBufsFree` | ec-nfp-drv-kmods/src/nfp_net_common.c:2196-2210 | The XDP ring's buffers are released up to the first empty slot, each once. |
| `RxXdp.RxVec.TxBufsAlloc` | ec-nfp-drv-kmods/src/nfp_net_common.c:2214-2232 | Every XDP slot gets a buffer iff no allocation fails; otherwise none keeps one. |
| `RxXdp.RxVec.Prepare` | ec-nfp-drv-kmods/src/nfp_net_common.c:2214-2377 | Both rings are stocked iff no allocation fails; otherwise nothing is held. |
| `RxXdp.DevicesDisjoint` | ec-nfp-drv-kmods/src/nfp_net_common.c:1557-1610 | No buffer the receive device may write is one the transmit device may still read. |
| `RxXdp.AnyRun` | ec-nfp-drv-kmods/src/nfp_net_common.c:1213-1839 | For any given sessions, poll budgets and verdicts: each poll takes no more than its budget and stops short only when the device has nothing more; every packet meets a fate its own verdict allows, exactly those to be passed up are, in order, less those that ran out of memory, and the XDP counter moves once per packet bounced and not refused; over the whole run the stack has received just what the polls passed on, and allocations failed just as often as polls say; the number of mapped buffers stays cnt-1 and the XDP slots; the final release, or a failed start, leaves no mapping, no page reference and no skb. |
| `ReconfigProtocol.OwedMeans` | ec-nfp-drv-kmods/src/nfp_net_common.c:231-253 | A bit is owed iff some accepted post of it has not been followed by a write containing it. |
| `ReconfigProtocol.StepKeepsInv` | ec-nfp-drv-kmods/src/nfp_net_common.c:147-304 | Each step of a poster, the timer, the synchronous caller or the device keeps the protocol invariant. |
| `ReconfigProtocol.RunKeepsInv` | ec-nfp-drv-kmods/src/nfp_net_common.c:147-304 | Every interleaving keeps it. |
| `ReconfigProtocol.NoRequestLost` | ec-nfp-drv-kmods/src/nfp_net_common.c:147-304 | In every reachable state a posted bit that was not written yet is either recorded as posted, with a synchronous caller or an active timer to run it, or taken over by the synchronous caller; and an active timer really is pending or running. |
| `ReconfigProtocol.NothingInvented` | ec-nfp-drv-kmods/src/nfp_net_common.c:156-159 | Only bits that were posted are ever recorded or taken over. |
| `ReconfigProtocol.SuccessIsAnswered` | ec-nfp-drv-kmods/src/nfp_net_common.c:185-199 | When the synchronous caller reports success, the last word written was its own and the device has cleared it. |
| `ReconfigProtocol.SleepsOnlyWhileBusy` | ec-nfp-drv-kmods/src/nfp_net_common.c:185-193 | In every run, whenever the synchronous caller went to sleep the register, as the writes and answers so far left it, still showed a command in progress without error. |
| `ReconfigProtocol.PostStartsIff` | ec-nfp-drv-kmods/src/nfp_net_common.c:231-253 | A post is written to the device at once, with all that was waiting, iff no synchronous caller is present and no command is in progress as far as the driver can tell; otherwise it is kept for later. |
| `ReconfigProtocol.OneCommandAtATime` | ec-nfp-drv-kmods/src/nfp_net_common.c:224-229 | In every run without a harmful timer callback, one that runs with no synchronous caller about while the last command is neither answered nor out of time, no command is ever written while another is unanswered and within its deadline. |
| `ReconfigProtocol.CallbackBreaksIff` | ec-nfp-drv-kmods/src/nfp_net_common.c:201-253 | In every state the invariant allows with a callback due and no synchronous caller present, the callback and one more post overwrite a command in flight iff the callback is harmful. |
| `ReconfigProtocol.StaleCallbackHappens` | ec-nfp-drv-kmods/src/nfp_net_common.c:270-274 | Such a run exists: the timer is deleted without waiting for a callback already started, which later clears the flag of a newer command. |
| `Reconfig.NetReconfig.constructor` | ec-nfp-drv-kmods/src/nfp_net_common.c:147-304 | A new object stands in the protocol's initial state with no action taken; from then on the object is where the protocol's run over its recorded actions is. |
| `Reconfig.NetReconfig.Start` | ec-nfp-drv-kmods/src/nfp_net_common.c:147-153 | Writing a command is the protocol's start step. |
| `Reconfig.NetReconfig.StartAsync` | ec-nfp-drv-kmods/src/nfp_net_common.c:156-165 | The posted bits are merged into the command and cleared in the same step. |
| `Reconfig.NetReconfig.Timer` | ec-nfp-drv-kmods/src/nfp_net_common.c:201-221 | The timer handler adds exactly the protocol's callback action to the object's run. |
| `Reconfig.NetReconfig.PostUpdate` | ec-nfp-drv-kmods/src/nfp_net_common.c:231-253 | Posting adds exactly the protocol's post action. |
| `Reconfig.NetReconfig.Enter` | ec-nfp-drv-kmods/src/nfp_net_common.c:272-285 | Entering takes over the posted bits and the timer's command in one locked step, the protocol's enter action. |
| `Reconfig.NetReconfig.Wait` | ec-nfp-drv-kmods/src/nfp_net_common.c:185-199 | Waiting ends in the protocol's next state under any interference by other contexts; it sleeps only while the command is in progress, fails iff the device reports an error or the last sleep before the deadline has been slept, and success means the device has cleared the word. |
| `Reconfig.NetReconfig.Reconfig` | ec-nfp-drv-kmods/src/nfp_net_common.c:262-304 | A synchronous reconfiguration writes its update and returns with no synchronous caller registered, whatever other contexts did meanwhile. It fails iff, at its final poll, the register shows an error or all the sleeps since its own write have been slept; on success the register was clear there and the device had answered that very update. |
| `Reconfig.NetReconfig.RunMain` | ec-nfp-drv-kmods/src/nfp_net_common.c:291-292 | The caller's own command is written once and waited for; the error is exactly that of the register at the final poll or of the deadline. |
| `Reconfig.NetReconfig.LeaveLocked` | ec-nfp-drv-kmods/src/nfp_net_common.c:296-301 | On leaving, exactly what was posted meanwhile is written as one command with the timer set, if anything was, and the caller has signed off. |
| `RingReconfig.TxRingHasOneVector` | ec-nfp-drv-kmods/src/nfp_net_common.c:2243-2250 | The vector a TX ring is given when it is set up is the vector that is later given the ring, it is one of those in use, and no other serves the ring in any role; XDP roles go exactly to rings with buffers. |
| `RingReconfig.RxRingHasOneVector` | ec-nfp-drv-kmods/src/nfp_net_common.c:2346-2383 | RX ring r is set up with vector r, that vector is in use, and vector i is assigned ring r iff i is r. |
| `RingReconfig.EveryVectorHasARing` | ec-nfp-drv-kmods/src/nfp_net_common.c:2380-2389 | Every vector a reconfiguration takes into use has an RX or a TX ring to serve. |
| `RingReconfig.XdpRingsPairWithRx` | ec-nfp-drv-kmods/src/nfp_net_common.c:2380-2389 | With an XDP program exactly the vectors that receive have an XDP ring; vectors beyond those in use have no ring at all. |
| `RingReconfig.Net.VectorsPointAtLiveRings` | ec-nfp-drv-kmods/src/nfp_net_common.c:2380-2389 | While the interface runs, every ring a vector points at exists, with its buffers if it has any, and that vector is enabled. |
| `RingReconfig.Net.RxRingIsServed` | ec-nfp-drv-kmods/src/nfp_net_common.c:2380-2389 | While the interface runs, each RX ring r of its configuration is polled by vector r, which is enabled, and by no other. |
| `RingReconfig.Net.LiveRingIsServed` | ec-nfp-drv-kmods/src/nfp_net_common.c:2234-2389 | While the interface runs, whatever ring memory exists belongs to a ring served by the vector it was set up with, which is enabled, and by no other. |
| `RingReconfig.Net.constructor` | ec-nfp-drv-kmods/src/nfp_net_common.c:3609-3650 | A new interface is down and owns nothing. |
| `RingReconfig.Net.RingMemAlloc` | ec-nfp-drv-kmods/src/nfp_net_common.c:2312-2334 | Descriptors and software list of a ring are both allocated iff neither allocation fails, else neither is left. |
| `RingReconfig.Net.RingsPrepare` | ec-nfp-drv-kmods/src/nfp_net_common.c:2234-2269 | All rings of the configuration are allocated iff no allocation fails; a failure in any ring, at its descriptors, its software list or its buffers, leaves the heap as it was. |
| `RingReconfig.Net.FreePrev` | ec-nfp-drv-kmods/src/nfp_net_common.c:2261-2268 | The unwinding path releases the rings already made, and the array, and nothing else. |
| `RingReconfig.Net.RingsFree` | ec-nfp-drv-kmods/src/nfp_net_common.c:2271-2281 | Freeing a configuration's rings frees exactly what preparing them allocated, never memory the running device uses. |
| `RingReconfig.Net.PrepareVectors` | ec-nfp-drv-kmods/src/nfp_net_common.c:3018-3025 | Vectors are set up from the current number to the new one, or up to the first that fails. |
| `RingReconfig.Net.CleanupVectors` | ec-nfp-drv-kmods/src/nfp_net_common.c:3051-3052 | The downward loop over a signed index against an unsigned count stops exactly at the vectors in use. |
| `RingReconfig.Net.CloseStack` | ec-nfp-drv-kmods/src/nfp_net_common.c:2657-2671 | Every enabled vector, and the link interrupt, is disabled exactly once. |
| `RingReconfig.Net.OpenStack` | ec-nfp-drv-kmods/src/nfp_net_common.c:2738-2751 | Every vector in use, and the link interrupt, is enabled exactly once, and only if it is set up. |
| `RingReconfig.Net.DpSwapEnable` | ec-nfp-drv-kmods/src/nfp_net_common.c:2932-2954 | The configurations trade places and every vector is given the rings the new one has for it, by the assignment RxRingHasOneVector and TxRingHasOneVector are about; on success queue counts and device are on the new rings, on any failure the device is off. |
| `RingReconfig.Net.PrepareAll` | ec-nfp-drv-kmods/src/nfp_net_common.c:3018-3033 | Vectors and both sets of rings for the new configuration, or everything as before. |
| `RingReconfig.Net.SwapOrRestore` | ec-nfp-drv-kmods/src/nfp_net_common.c:3037-3050 | The new configuration is in force, or the old one is current again and in force, or neither starts and the old one is current. |
| `RingReconfig.Net.Switch` | ec-nfp-drv-kmods/src/nfp_net_common.c:3035-3057 | After the switch only the current configuration's rings exist, and exactly its vectors are set up and enabled. |
| `RingReconfig.Net.RingReconfig` | ec-nfp-drv-kmods/src/nfp_net_common.c:2995-3070 | The transaction: refused iff an XDP program meets buffers larger than a page or more TX rings than there are; success iff nothing fails and it is not refused, and then the requested settings are in force with no more vectors than rings; any error leaves the old configuration, with prepared vectors, heap, vector assignment and MTU all matching it; before the device is stopped an error changes nothing, after it one failure means the old rings run again and only a second leaves the device off. |
| `RingReconfig.Net.OpenAllocAll` | ec-nfp-drv-kmods/src/nfp_net_common.c:2753-2799 | Both auxiliary interrupts, all vectors and all rings, or none of them, iff a request fails. |
| `RingReconfig.Net.Open` | ec-nfp-drv-kmods/src/nfp_net_common.c:2801-2854 | The interface comes up complete, port included, iff no request fails, and otherwise holds nothing; its port stays up only if it was or would not go down. |
| `RingReconfig.Net.Close` | ec-nfp-drv-kmods/src/nfp_net_common.c:2677-2714 | Closing disables, stops and releases everything, interrupts included; a port that will not go down is ignored. |
| `RingReconfig.AnyRun` | ec-nfp-drv-kmods/src/nfp_net_common.c:2677-3070 | For any given sequence of opens, closes and reconfigurations on a new interface, failing anywhere: after each, a running interface has exactly the vectors, rings and vector assignment of its configuration and a closed one has nothing; a reconfiguration puts the request in force if nothing fails and it is not refused, and keeps the old configuration otherwise, still running after one failure and off after two. |
| `AreaPlacement.CheckIsExactIff` | ec-nfp-drv-kmods/src/nfp_dev_cpp.c:514-528 | The collision check judges a request rightly against every well-formed list iff the request ends inside the 64-bit space or starts in its last page. |
| `AreaPlacement.PlacementNeverFails` | ec-nfp-drv-kmods/src/nfp_dev_cpp.c:802-818 | Automatic placement always finds an offset that collides with nothing, 0 or the end of a registered area, whatever is registered. |
| `AreaPlacement.PlacementIsLowestIff` | ec-nfp-drv-kmods/src/nfp_dev_cpp.c:802-818 | The placement is the lowest free offset at which the range fits iff 0 is free or the first free end in list order is the least free end at which it fits. |
| `AreaPlacement.PlacementSkipsAGap` | ec-nfp-drv-kmods/src/nfp_dev_cpp.c:803-818 | It need not be: with [8192,12288) and [0,4096) registered in that order, a page is placed at 12288 although 4096 is free. |
| `AreaPlacement.AutomaticNeverBusy` | ec-nfp-drv-kmods/src/nfp_dev_cpp.c:802-822 | An automatic request is never refused for want of room. |
| `AreaPlacement.RequestIsGrantedIff` | ec-nfp-drv-kmods/src/nfp_dev_cpp.c:789-830 | A request is malformed iff its size or its given offset is not a whole number of pages. An automatic one is granted iff it is well-formed and memory lasts. One for a given range that ends inside the space is granted iff, besides, no registered area shares an offset with the range, and reported busy iff it is well-formed and one does. |
| `AreaPlacement.RequestRegisters` | ec-nfp-drv-kmods/src/nfp_dev_cpp.c:802-830 | A granted request adds one unmapped area behind the others, of the size and at the offset asked for, or at a chosen one whose range, if it ends inside the space, shares nothing with the others. |
| `AreaPlacement.RequestKeepsGoodIff` | ec-nfp-drv-kmods/src/nfp_dev_cpp.c:789-830 | A granted request keeps the registered ranges aligned, disjoint and unwrapped iff its own range ends inside the space; a refused one changes nothing. |
| `AreaPlacement.WrapBreaksPlacement` | ec-nfp-drv-kmods/src/nfp_dev_cpp.c:514-528 | A granted non-empty range that wraps around, asked for or placed automatically, always breaks disjointness: it already shares an offset with another area, or the next request for its first page is granted too. |
| `AreaPlacement.ReleaseKeepsGood` | ec-nfp-drv-kmods/src/nfp_dev_cpp.c:832-855 | Releasing keeps the ranges disjoint. |
| `AreaPlacement.ReleaseIsExact` | ec-nfp-drv-kmods/src/nfp_dev_cpp.c:832-855 | A release concerns the first area registered at the offset, empty ones included: missing iff there is none, busy iff that one is mapped, and then nothing changes; otherwise that one is taken out. Among non-empty areas no other has that offset. |
| `AreaPlacement.RequestThenReleaseIff` | ec-nfp-drv-kmods/src/nfp_dev_cpp.c:789-855 | Releasing the offset a request was just given restores the list iff every area from the first one at that offset on is just like the new one, which among non-empty areas always holds. |
| `AreaPlacement.RunStaysDisjoint` | ec-nfp-drv-kmods/src/nfp_dev_cpp.c:789-855 | After any run of requests, releases, mappings and unmappings whose ranges end inside the space, the registered ranges are pairwise disjoint. |
| `AreaPlacement.Cdev.RangeCheck` | ec-nfp-drv-kmods/src/nfp_dev_cpp.c:514-528 | The loop reports busy iff some registered area collides. |
| `AreaPlacement.Cdev.FindSlot` | ec-nfp-drv-kmods/src/nfp_dev_cpp.c:802-818 | The search loop computes the placement function, and never comes back busy. |
| `AreaPlacement.Cdev.AreaRequest` | ec-nfp-drv-kmods/src/nfp_dev_cpp.c:789-830 | The driver's request has the result and the new list that the placement lemmas are about; the offset written back is the one placed, or the given one if the request is malformed. |
| `AreaPlacement.Cdev.AreaRelease` | ec-nfp-drv-kmods/src/nfp_dev_cpp.c:832-855 | So has its release, which looks the area up and unlinks it in one pass. |
| `AreaPlacement.SelectionIsExactIff` | ec-nfp-drv-kmods/src/nfp_dev_cpp.c:1105-1108 | The test that picks an area for a user mapping accepts exactly the areas containing the range, for every well-formed area, iff the range ends inside the 64-bit space. |
| `AreaPlacement.Cdev.Lookup` | ec-nfp-drv-kmods/src/nfp_dev_cpp.c:1099-1114 | The search returns the first area the test accepts; for a range that ends inside the space that is the one area containing it, and the error means there is none. |
| `AreaPlacement.MappingShowsItsRangeIff` | ec-nfp-drv-kmods/src/nfp_dev_cpp.c:982-1020 | Every page of a mapping shows its own place in the area iff the mapping starts at the area's offset; the fault handler counts from the start of the area wherever in it the mapping starts, and never shows a page beyond the area. |
| `AreaMapping.Cdev.VmaAcquire` | ec-nfp-drv-kmods/src/nfp_dev_cpp.c:224-245 | Attaching appends the mapping to its own area's list and activates the area with its first mapping, acquiring the window only then; on failure nothing changes, and an active area never fails. |
| `AreaMapping.Cdev.VmaRelease` | ec-nfp-drv-kmods/src/nfp_dev_cpp.c:254-275 | Detaching unlinks just this mapping, and with the last one the area leaves the active list and its window is released. |
| `AreaMapping.Cdev.EvictArea` | ec-nfp-drv-kmods/src/nfp_dev_cpp.c:291-305 | Evicting an area empties its list through the release path, ends, and never meets the mapping it works for. |
| `AreaMapping.Cdev.EvictOther` | ec-nfp-drv-kmods/src/nfp_dev_cpp.c:280-313 | On behalf of a mapping, the first active area other than its own loses all mappings and no other area any; nothing to evict iff there is no such area. |
| `AreaMapping.Cdev.EvictAll` | ec-nfp-drv-kmods/src/nfp_dev_cpp.c:280-313 | Without a mapping to spare, the active list is emptied and every window released; the answer is 'again' iff nothing was active. |
| `AreaMapping.Cdev.Fault` | ec-nfp-drv-kmods/src/nfp_dev_cpp.c:985-999 | A fault attaches the mapping at the tail of its area's list, unless acquiring the area fails, once with nobody to evict or twice around one eviction; the area joins the active list at its tail, and other areas are untouched except the first other active one, evicted iff the first attempt failed. |
| `AreaMapping.Cdev.Map` | ec-nfp-drv-kmods/src/nfp_dev_cpp.c:1089-1140 | A new mapping is on no list yet. |
| `AreaMapping.Cdev.Close` | ec-nfp-drv-kmods/src/nfp_dev_cpp.c:1063-1077 | Closing detaches the mapping and forgets it; the area leaves the active list with its last mapping. |
| `AreaMapping.Cdev.NoMappingsNoWindows` | ec-nfp-drv-kmods/src/nfp_dev_cpp.c:254-275 | Without mappings no area is active and no window is held. |
| `AreaMapping.AnyRun` | ec-nfp-drv-kmods/src/nfp_dev_cpp.c:224-313 | For any given sequence of registrations, mappings, faults, closes and evictions: at every moment an area is active iff it has mappings iff it holds its window, each attached mapping is on its own area's list once, and each operation changes the lists and the order of active areas just as it should - a fault attaches unless acquiring failed as often as it is tried, and evicts just the first other active area, iff it failed once. |
| `ChunkedAccess.EachByteOnce` | ec-nfp-drv-kmods/src/nfp_dev_cpp.c:417-484 | Tiling pieces touch each byte of the range exactly once and no other byte, at the matching place in the user's buffer. |
| `ChunkedAccess.FirstPassFits` | ec-nfp-drv-kmods/src/nfp_dev_cpp.c:417-421 | The bit-mask computation of the first length never crosses a 1 MB boundary, and stops short only on one. |
| `ChunkedAccess.NextPass` | ec-nfp-drv-kmods/src/nfp_dev_cpp.c:481-483 | Every later length fits its block too. |
| `ChunkedAccess.Op` | ec-nfp-drv-kmods/src/nfp_dev_cpp.c:406-487 | Passes tile the range, each ending on a 1 MB boundary or with the range, and pieces tile the passes in order, each the 64 bytes of the bounce buffer or ending its pass. Services are asked for in the code's order, one area and one window per pass and one move per piece, with mappings evicted exactly when no window is free at once; it succeeds iff none fails, with the full count and the offset advanced by it, and otherwise reports the one that failed, with the offset at the first byte not transferred and no area left behind. |
| `ChunkedAccess.OnePass` | ec-nfp-drv-kmods/src/nfp_dev_cpp.c:423-479 | One pass sets an area up, acquires it, evicting and waiting iff no window is free at once, and always takes it down, also on every error. |
| `ChunkedAccess.Transfer` | ec-nfp-drv-kmods/src/nfp_dev_cpp.c:445-472 | The inner loop moves the pass in consecutive pieces, full ones but for the last, up to the first failure. |
| `ChunkedAccess.PositionRoundTrip` | ec-nfp-drv-kmods/src/nfp_dev_cpp.c:489-511 | Writing the file position back preserves target and offset iff the offset stayed below 2^40. |
| `BarAllocator.BarsForIsLeast` | ec-nfp-drv-kmods/src/nfp_plat.c:369-376 | The rounded division gives the least number of windows that hold offset plus size, for any address and non-zero size. |
| `BarAllocator.FirstIsLowest` | ec-nfp-drv-kmods/src/nfp_plat.c:188-222 | The search result is the lowest run that fits, or no run fits. |
| `BarAllocator.FindIsComplete` | ec-nfp-drv-kmods/src/nfp_plat.c:188-227 | The lowest run with the wanted contents if there is one, else the lowest wholly free run; 'no match' iff sharing was demanded and impossible, 'no space' iff neither exists. |
| `BarAllocator.AcquireKeepsAccounts` | ec-nfp-drv-kmods/src/nfp_plat.c:229-238 | Acquiring a found run keeps usage equal to the number of areas covering each window plus its reservation, and locked iff in use. |
| `BarAllocator.HeldIsUntouched` | ec-nfp-drv-kmods/src/nfp_plat.c:229-238 | No acquisition changes the contents of a window any area holds, in memory or in hardware. |
| `BarAllocator.ReleaseKeepsAccounts` | ec-nfp-drv-kmods/src/nfp_plat.c:428-448 | Releasing keeps the accounts and clears a window iff its last user went. |
| `BarAllocator.SharersAgree` | ec-nfp-drv-kmods/src/nfp_plat.c:188-238 | Two areas covering the same window need the same contents there, and those are its contents. |
| `BarAllocator.StableWhileHeld` | ec-nfp-drv-kmods/src/nfp_plat.c:156-247 | Between any two moments while an area holds a window, its contents are the same. |
| `BarAllocator.AllReleased` | ec-nfp-drv-kmods/src/nfp_plat.c:148-154 | Once all areas are released every unreserved window is unlocked and zero and every reservation is intact. |
| `BarAllocator.TryKindMeans` | ec-nfp-drv-kmods/src/nfp_plat.c:377-400 | A class of windows yields a run iff it can share, or may allocate and has room, and it prefers sharing. |
| `BarAllocator.EligibleIff` | ec-nfp-drv-kmods/src/nfp_plat.c:374-391 | The test of a class by its number of windows refuses it exactly when the area's offset in its first window plus its size exceed all windows of the class but one, or a bulk window is not allowed. |
| `BarAllocator.ChooseSharesFirst` | ec-nfp-drv-kmods/src/nfp_plat.c:404-426 | Acquisition succeeds iff some usable class can share or has room; fresh windows are programmed only when no class can share, and the second class is used only if the first cannot serve. The class chosen is one whose windows, less one, hold the area from its first window on, a bulk class only for actions that may use it. |
| `BarAllocator.WindowsCoverArea` | ec-nfp-drv-kmods/src/nfp_plat.c:239-245 | The windows found contain the whole area and stay inside their class. |
| `BarAllocator.Plat.constructor` | ec-nfp-drv-kmods/src/nfp_plat.c:927-1036 | With any boot-time reservations the accounts start out right. |
| `BarAllocator.Plat.Search` | ec-nfp-drv-kmods/src/nfp_plat.c:188-222 | The nested search loops compute the lowest fitting run and never index outside the array. |
| `BarAllocator.Plat.BarFind` | ec-nfp-drv-kmods/src/nfp_plat.c:156-247 | The in-place search locks and labels exactly the run the specification names, or changes nothing. |
| `BarAllocator.Plat.BarFindAny` | ec-nfp-drv-kmods/src/nfp_plat.c:351-402 | Both classes are tried in order; a failure leaves all windows as they were. |
| `BarAllocator.Plat.Acquire` | ec-nfp-drv-kmods/src/nfp_plat.c:404-426 | The driver's acquisition makes the specified choice, and the resource it reports starts at the area's own offset in its first window and has its size. |
| `BarAllocator.Plat.Release` | ec-nfp-drv-kmods/src/nfp_plat.c:428-448 | Exactly this area's hold is given up. |
| `BarAllocator.AnyRun` | ec-nfp-drv-kmods/src/nfp_plat.c:351-448 | For any given sequence of acquisitions and releases from any boot state: each acquisition adds exactly the run the allocator chooses, or changes nothing; at every moment usage, locks and contents are what the runs held and the reservations demand; and with none held every window is as at boot. |
| `BarInterleaving.StepKeepsInv` | ec-nfp-drv-kmods/src/nfp_plat.c:351-448 | Any step of any area - starting, one locked search, one register write outside the lock, a release - keeps usage counts, contents and written registers right. |
| `BarInterleaving.RunKeepsInv` | ec-nfp-drv-kmods/src/nfp_plat.c:351-448 | Every interleaving of any number of areas keeps them right. |
| `BarInterleaving.ProgramKeepsInv` | ec-nfp-drv-kmods/src/nfp_plat.c:382-384 | Writing a register after the lock was dropped is safe: whoever else holds the window needs the very value written. |
| `BarInterleaving.HeldIsProgrammed` | ec-nfp-drv-kmods/src/nfp_plat.c:404-426 | When an acquisition has returned, every window of its run is locked and holds what the area needs, in memory and in hardware, whatever others are doing. |
| `BarInterleaving.OthersDoNotDisturb` | ec-nfp-drv-kmods/src/nfp_plat.c:156-247 | From locking a run to giving it up, no step of another area changes its contents or a register already written. |
| `BarInterleaving.AllGone` | ec-nfp-drv-kmods/src/nfp_plat.c:428-448 | In every interleaving, once nobody holds a run every window is back to its boot state. |
| `BarInterleaving.AloneIsChoose` | ec-nfp-drv-kmods/src/nfp_plat.c:404-426 | Without interference the four separately locked searches make exactly the choice of the sequential allocator. |
| `BarInterleaving.FreshOnlyWithoutMatch` | ec-nfp-drv-kmods/src/nfp_plat.c:188-222 | With interference, fresh windows are still taken only after the attempts to share have failed and only if nothing in their own class can be shared at that moment. |
| `BarInterleaving.SharingCanBeOverlookedIff` | ec-nfp-drv-kmods/src/nfp_plat.c:404-411 | Exactly the requests that fit both classes are exposed: for each of them, and for no other, a run exists in which fresh windows are about to be taken although the other class could be shared by then. The rival in that run is the same area made larger, so it needs the same contents whatever these are. |

## Left out

- Weak memory ordering: steps are sequentially consistent and barriers do nothing.
- The early-exit test and the register read of completion are one step in `TxInterleaving`.
- Statistics, byte queue limits, packet counts, checksum and segmentation flags, timestamps: no influence on what is proved.
- Receive metadata, BPF programs, skb construction and port lookup: one verdict per packet, given with the poll.
- Socket buffers are identified by a number and their sizes; a buffer handed in again later counts as a new one.
- Control-channel receive and the queue flush on close: the same buffer accounting as the data path.
- Reconfig.NetReconfig.Wait: the deadline is a number of sleeps, because time is not modelled.
- The mailbox, link-state and VXLAN commands that go through reconfiguration, and the contents of its control words.
- RingReconfig.Net.RingReconfig: receive-buffer sizes come in as a number, and the packet buffers of one ring are one allocation here; `RxXdp.dfy` has them one by one.
- A device that ignores a disable command: the code only logs it, and the model's device always stops.
- RSS tables, interrupt affinity, the control word and the NULL netdev of control vNICs in ring reconfiguration.
- AreaMapping.Cdev.Map: the area is given; its selection by offset is `AreaPlacement.Cdev.Lookup`. Freeing an area with detached mappings is not modelled.
- Copying to and from user memory: one with the move of its piece, and a success or failure; and the truncation of the returned byte count to an int.
- Event, explicit-access and firmware-load ioctls of the character device.
- CSR bit layouts: the contents a run needs are a parameter, consecutive windows need consecutive values; that `bulk_csr` assigns its width where it means to compare is not visible here.
- BarAllocator.Plat.Acquire: sizes are below 2^32 as on the 32-bit ARM this bus exists on, and no other area comes in between; `BarInterleaving.dfy` is about that.
- BarInterleaving.HeldIsProgrammed: two writers of one register are ordered, and the read-back loop after a write is not modelled.
- Boot-time scanning of windows beyond "some start reserved".
- Ethtool tables, hwmon, devlink, representors, debugfs, PCI probe, SR-IOV, and the demos, firewall controller, P4 plugin and simulator headers outside the driver: plumbing, or single-branch logic that would only add easy members.

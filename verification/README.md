# Verified models of the NetFPGA-10G NIC driver and its netlink library

This project models, in Dafny, the parts of the reference NIC's host software that keep state
or define a format, and proves what they promise.

* **The DMA rings** of the Ethernet driver. `GhostRing` is ghost mode as a machine of
  micro-steps: senders under a spinlock, the timer callback and the NAPI poll share one ring
  whose only coordination is a flag per slot. `GhostRingInvariant` and `GhostRingTheorems` prove,
  for every interleaving and ring size, that it is a FIFO, that nothing is lost or counted twice,
  and that polling is never forgotten; `GhostDrain` and `GhostDelivery` prove that what is queued is
  taken in bounded time. `GhostDriver` is the same code as a class, whole calls at a time.
  `HardwareTx` is transmission by concurrent callers to the device, which releases buffers.
  `RegWindow` and `DmaRegion` are the paged register window and the layout of the DMA regions.
* **The netlink wire format.** `Attributes` defines the encoding and the walk, `AttrParser` the
  validating loops, `Message` the bounded byte buffer that is filled in place, `Builder` the
  emission of nested forests, `Genl` generic netlink messages end to end.
* **The object cache.** `CacheModel` and `CacheTheorems` treat it as a list of objects compared by
  identity; `CacheHeap` is the memory underneath: circular lists, back pointers, reference counts;
  `CacheRefinement` ties the two where the object is already in the cache.
* **The receive path.** `Datagram` splits datagrams, `Receive` is the callback-directed state
  machine, `ReceiveTheorems`, `ReceiveAnswers` and `SeqWindow` prove delivery, what answers do, and
  sequence numbering, `HeaderWire` ties what is read to the bytes of a header,
  `RecvLoop` is `recvmsgs` with its loops, labels and allocations. `Ports` and `Sockets` are the
  local port bitmap and the sockets that use it.

`dafny verify dfyconfig.toml` checks everything.

## What the code does that a reader might not expect

* A walk over attributes reads past the end of some streams of every length above four that is not
  a multiple of four, because the remaining count is compared as unsigned after going negative
  (`Attributes.SafeLengths`).
* `nla_reserve` adds the present length twice in its space test, so it refuses requests that would
  fit (`Builder.EmitAll` states exactly when, `Builder.RefusesWhatFits` shows one).
* `nla_reserve` clears the padding at the offset it reads back from the 16-bit length field. For an
  oversized payload whose length wraps to 1, 2 or 3 that is inside the header, and the type is lost
  (`Message.StoredType`, `Builder.StoredIsEncoding`, `Builder.OversizedLosesType`).
* Resynchronising a cache is exact only for object types whose identifying attributes are fixed;
  for types that compare whatever two objects share, a stale entry can shield another one
  (`CacheTheorems.ExactlyTheKeyedTypes`).
* A cached object without its identifying attributes is announced as new whenever it is included
  again (`CacheRefinement.UnidentifiedIsAnnouncedAgain`).
* `nl_socket_set_local_port` with port 0 on a socket that already has an assigned port never gives
  the old one back, and process ids ending in twenty-two ones lose the last index
  (`Sockets.Registry.SetLocalPort`, `Ports.Number`).
* `nl_list_del` leaves the node's links alone, so an object that has been in a cache is copied by
  `nl_cache_add` although it is in none (`CacheHeap.Library.Add`).
* When no DMA region can be had, `probe` returns the result of the call before, which is 0
  (`DmaRegion.Probe`, `DmaRegion.RefusedYetZero`).

## Model

| member | source | states |
|---|---|---|
| `GhostRingTheorems.RingIsFifo` | projects/reference_nic/sw/host/driver/src/nf10_eth_driver_main.c:1003-1041 | After every interleaving of micro-steps of any number of senders, the timer callback and the poll, for every ring size: accepted packets are those taken off followed by what memory holds from the receive position on; a flag is set exactly on the slots of the queue and clear on all others; the receive index is at its head (one behind while a slot is being given back); never more than the ring size is queued |
| `GhostRingTheorems.StepRefinesFifo` | projects/reference_nic/sw/host/driver/src/nf10_eth_driver_main.c:1003-1041 | Each micro-step is a step of a bounded FIFO: the flag store of a sender enqueues that packet, the flag store of the poll dequeues, nothing else is visible |
| `GhostRingTheorems.ReadOutIsQueue` | projects/reference_nic/sw/host/driver/src/nf10_eth_driver_main.c:1389-1492 | Reading buffers, lengths and opcodes from a position on while flags are set gives exactly the packets accepted from that position on |
| `GhostRingTheorems.DeliveredInOrder` | projects/reference_nic/sw/host/driver/src/nf10_eth_driver_main.c:1400-1470 | With no allocation failure the stack has received exactly the packets taken off, byte for byte, to the addressed interface and in order of acceptance |
| `GhostRingTheorems.NoInterference` | projects/reference_nic/sw/host/driver/src/nf10_eth_driver_main.c:1003-1041 | In every reachable state: no slot is written while it is read, at most one sender is in the critical section, callback and poll never overlap, no store or load leaves its buffer, no pending timer is added again |
| `GhostRingTheorems.ExactlyOnePoller` | projects/reference_nic/sw/host/driver/src/nf10_eth_driver_main.c:1361-1373 | In every reachable state exactly one of armed timer, running callback, scheduled NAPI and poll about to re-arm holds the polling right |
| `GhostRingTheorems.Conservation` | projects/reference_nic/sw/host/driver/src/nf10_eth_driver_main.c:1400-1470 | Whenever no call is in progress, packets and bytes sent by one interface of the pair 0-1 or 2-3 are those received by the other, dropped there for lack of memory, or still queued for it; each transmit call is counted exactly once as sent or dropped |
| `GhostRingTheorems.LoopbackAddress` | projects/reference_nic/sw/host/driver/src/nf10_eth_driver_main.c:962-980 | What a sender puts on the ring is its data under the opcode word 0x08, 0x02, 0x80 or 0x20 for sender 0, 1, 2 or 3: the other interface of its pair and no other bit |
| `GhostRingTheorems.Admission` | projects/reference_nic/sw/host/driver/src/nf10_eth_driver_main.c:955-972 | A call goes for the lock exactly if its packet has at most 2048 bytes and comes from one of four interfaces; otherwise it is dropped |
| `GhostDrain.DrainsOnTheMachine` | projects/reference_nic/sw/host/driver/src/nf10_eth_driver_main.c:1389-1510 | From every reachable state between polls, while no sender takes a step and the receiving side runs in any order: each poll of budget b that ends has taken b packets or emptied the ring, ceil(k / b) polls empty it, and at most b frames are handed up per poll begun |
| `GhostDrain.EachPollEnds` | projects/reference_nic/sw/host/driver/src/nf10_eth_driver_main.c:1389-1510 | Every step of a poll decreases a bound on the steps it has left |
| `GhostDrain.NeverStuck` | projects/reference_nic/sw/host/driver/src/nf10_eth_driver_main.c:1361-1373 | In every reachable state the timer, the callback or the poll can take a step |
| `GhostDelivery.TimerHandsOver` | projects/reference_nic/sw/host/driver/src/nf10_eth_driver_main.c:1361-1373 | In every reachable state in which the timer can fire, its callback schedules NAPI exactly if something is queued and re-arms the timer exactly if nothing is |
| `GhostDelivery.CallbackDecides` | projects/reference_nic/sw/host/driver/src/nf10_eth_driver_main.c:1361-1373 | The same for the queue at the time of the test, whatever senders do around it |
| `GhostDelivery.PollHandsBack` | projects/reference_nic/sw/host/driver/src/nf10_eth_driver_main.c:1500-1510 | A poll that has left its loop ends with NAPI scheduled if something is queued, and with the timer armed and NAPI not scheduled if nothing is |
| `GhostDelivery.EventuallyTaken` | projects/reference_nic/sw/host/driver/src/nf10_eth_driver_main.c:1361-1510 | From every reachable state with k packets queued, every run of the receiving side alone of (k + 1) * 2112 steps has taken them all, each handed up or dropped for lack of memory |
| `GhostDelivery.EachStepNearer` | projects/reference_nic/sw/host/driver/src/nf10_eth_driver_main.c:1361-1510 | While something is queued every step of timer, callback or poll brings its taking nearer |
| `GhostDelivery.BudgetCountsDelivered` | projects/reference_nic/sw/host/driver/src/nf10_eth_driver_main.c:1389-1492 | Over every interleaving, what a poll counts against its budget is exactly what it has handed up |
| `GhostDelivery.AllocationDecides` | projects/reference_nic/sw/host/driver/src/nf10_eth_driver_main.c:1400-1452 | A packet found by the poll is copied for the interface it is addressed to if a buffer can be had, and given up otherwise |
| `GhostDelivery.SendersNeverStuck` | projects/reference_nic/sw/host/driver/src/nf10_eth_driver_main.c:937-1056 | In every reachable state a netdev can begin a call, and one in a call can step unless it waits for the lock, whose holder then can |
| `GhostDelivery.XmitEnds` | projects/reference_nic/sw/host/driver/src/nf10_eth_driver_main.c:937-1056 | Every step of a transmit call decreases a bound on the steps it has left, and leaves other calls alone |
| `GhostDelivery.InitExists` | projects/reference_nic/sw/host/driver/src/nf10_eth_driver_main.c:775-790 | There is a start state for every ring size and number of netdevs |
| `GhostRingInvariant.FlagsTell` | projects/reference_nic/sw/host/driver/src/nf10_eth_driver_main.c:1005-1010 | The flag under the transmit index is set exactly when the ring is full, the one under the receive index exactly when it is not empty |
| `GhostRingInvariant.FullMeansFull` | projects/reference_nic/sw/host/driver/src/nf10_eth_driver_main.c:1005-1010 | A packet is turned away at the ring exactly when every slot is taken |
| `GhostRingInvariant.InitInv` | projects/reference_nic/sw/host/driver/src/nf10_eth_driver_main.c:775-787 | The state set up by ghost mode satisfies the invariant |
| `GhostRingInvariant.StepInv` | projects/reference_nic/sw/host/driver/src/nf10_eth_driver_main.c:1389-1510 | Every enabled micro-step keeps the invariant of ring, senders, receiver and polling token |
| `GhostDriver.Driver.constructor` | projects/reference_nic/sw/host/driver/src/nf10_eth_driver_main.c:775-790 | Ghost mode starts empty, with the timer armed |
| `GhostDriver.Driver.FillSlot` | projects/reference_nic/sw/host/driver/src/nf10_eth_driver_main.c:1018-1027 | Copy and metadata stores touch only the slot at the transmit index and leave the packet there |
| `GhostDriver.Driver.Xmit` | projects/reference_nic/sw/host/driver/src/nf10_eth_driver_main.c:937-1056 | The packet joins the tail of the queue under the opcode word 0x08, 0x02, 0x80 or 0x20 for sender 0, 1, 2 or 3, exactly if it has at most 2048 bytes, the sender is one of four and a slot is free; the matching statistic is updated and all invariants kept |
| `GhostDriver.Driver.TimerCallback` | projects/reference_nic/sw/host/driver/src/nf10_eth_driver_main.c:1361-1373 | Polling goes to NAPI if something is queued, back to the timer otherwise |
| `GhostDriver.Driver.TakeOne` | projects/reference_nic/sw/host/driver/src/nf10_eth_driver_main.c:1389-1491 | The oldest packet is handed up byte for byte to its interface or dropped for lack of memory, and its slot is given back |
| `GhostDriver.Driver.Poll` | projects/reference_nic/sw/host/driver/src/nf10_eth_driver_main.c:1376-1510 | Exactly the packets the budget allows leave the head of the queue (dropped ones do not count); NAPI stays scheduled exactly when something is left; the value returned is then the number delivered, and 0 otherwise |
| `GhostDriver.Driver.Drain` | projects/reference_nic/sw/host/driver/src/nf10_eth_driver_main.c:1389-1510 | With no sender, repeated polls empty a queue of k packets within max(1, ceil(k / budget)) polls and end with the timer armed |
| `GhostDriver.DrainsInTime` | projects/reference_nic/sw/host/driver/src/nf10_eth_driver_main.c:1389-1510 | The bound on the number of polls, whatever allocations fail |
| `Opcode.SetDstRoundTrip` | projects/reference_nic/sw/host/driver/src/nf10_eth_driver_main.c:1284-1324 | The destination written is the one read, for every word and interface number; the source is untouched |
| `Opcode.SetSrcRoundTrip` | projects/reference_nic/sw/host/driver/src/nf10_eth_driver_main.c:1298-1338 | The source written is the one read; the destination is untouched |
| `Opcode.OpcodeWords` | projects/reference_nic/sw/host/driver/src/nf10_eth_driver_main.c:1284-1338 | The words written and read for each interface, in numbers |
| `Opcode.LowestBitCounts` | projects/reference_nic/sw/host/driver/src/nf10_eth_driver_main.c:1284-1310 | With several bits set the lowest interface counts, and no other bit does |
| `HardwareTx.DeviceSeesAll` | projects/reference_nic/sw/host/driver/src/nf10_eth_driver_main.c:1175-1226 | In every run with any number of callers and a device that releases full buffers in ring order: it sees the accepted packets in order, byte for byte; zero flags are exactly the buffers of packets not yet seen and end at the transmit index; doorbells are packets accepted; at most one call is in the critical section; a netdev between calls has counted exactly the packets and bytes accepted from it and each call once |
| `HardwareTx.OverwritesOnlySeen` | projects/reference_nic/sw/host/driver/src/nf10_eth_driver_main.c:1175-1200 | A buffer is written only while free and after its former packet was seen; other buffers are untouched; a packet is dropped at the ring exactly when it is full |
| `HardwareTx.CallNamesSender` | projects/reference_nic/sw/host/driver/src/nf10_eth_driver_main.c:1087-1127 | A packet from a known interface goes to the ring unchanged under its sender's opcode word 0x02, 0x08, 0x20 or 0x80 |
| `HardwareTx.Admission` | projects/reference_nic/sw/host/driver/src/nf10_eth_driver_main.c:1087-1122 | A call waits for the lock exactly if its packet has 33 to 1514 bytes, the device is ready and it comes from one of four interfaces |
| `HardwareTx.NobodyStuck` | projects/reference_nic/sw/host/driver/src/nf10_eth_driver_main.c:1059-1226 | In every reachable state callers can begin and go on, but for waiting for a lock whose holder can, and the device can take a buffer exactly if a packet is in flight |
| `HardwareTx.StartExists` | projects/reference_nic/sw/host/driver/src/nf10_eth_driver_main.c:1783-1788 | There is a start state for every ring size and number of netdevs |
| `HardwareTx.StartInv` | projects/reference_nic/sw/host/driver/src/nf10_eth_driver_main.c:1783-1788 | Flags set bytewise to 1 count as free: the invariant holds at start |
| `HardwareTx.EventInv` | projects/reference_nic/sw/host/driver/src/nf10_eth_driver_main.c:1059-1226 | Every step of a caller outside the lock, of the holder of the lock and of the device keeps the invariant of ring, lock and books |
| `RegWindow.NoAliases` | projects/reference_nic/sw/host/driver/src/nf10_eth_driver_main.c:505-508 | Page (address / 0x100000, below 4096) and word index (below 0x40000) identify an aligned 32-bit address uniquely |
| `RegWindow.StepRefinesFlat` | projects/reference_nic/sw/host/driver/src/nf10_eth_driver_main.c:505-524 | One request through the window answers as flat memory does; an unaligned one is refused and changes neither page nor registers |
| `RegWindow.RunRefinesFlat` | projects/reference_nic/sw/host/driver/src/nf10_eth_driver_main.c:1701-1706 | Over every sequence of reads and writes the window answers as flat memory does |
| `RegWindow.Board.RegRd` | projects/reference_nic/sw/host/driver/src/nf10_eth_driver_main.c:505-524 | The word at the address in flat memory, or an error for an unaligned address; only the page register changes, and only on success |
| `RegWindow.Board.RegWr` | projects/reference_nic/sw/host/driver/src/nf10_eth_driver_main.c:628-650 | Flat memory changes at the address and nowhere else; an unaligned address is an error and changes neither page nor registers |
| `DmaRegion.AllocateRegions` | projects/reference_nic/sw/host/driver/src/nf10_eth_driver_main.c:1629-1661 | The loop ends with the largest power of two for which both allocations succeed, both regions of 2068 bytes per buffer live and below 2^32; or with none possible and nothing live |
| `DmaRegion.Probe` | projects/reference_nic/sw/host/driver/src/nf10_eth_driver_main.c:1606-1668 | The code returned, exactly: zero means that the device is up or that no region could be had, and a caller cannot tell which; a device that is not up leaves no region allocated |
| `DmaRegion.RefusedYetZero` | projects/reference_nic/sw/host/driver/src/nf10_eth_driver_main.c:1661-1667 | With an allocator that always refuses, every call whose masks are accepted returns zero |
| `DmaRegion.CellsPartition` | projects/reference_nic/sw/host/driver/src/nf10_eth_driver_main.c:1783-1787 | Every byte of the region belongs to exactly one buffer, metadata or flag cell, and no cell leaves the region |
| `DmaRegion.LayoutIs` | projects/reference_nic/sw/host/driver/src/nf10_eth_driver_main.c:1783-1786 | Buffers at 2048 i, metadata at 2048 n + 16 i, flags at 2064 n + 4 i |
| `DmaRegion.DeviceAgrees` | projects/reference_nic/sw/host/driver/src/nf10_eth_driver_main.c:1790-1803 | The bases and pitches programmed into the data-plane registers address a cell where the driver's pointers put it if and only if the cells of that kind begin below 4 GB, for every address, count and slot |
| `Attributes.NestedRoundTrip` | projects/reference_nic/sw/host/driver/lib/libnl-3.0/lib/attr.c:1130-1197 | A forest of attributes is recovered from its encoding, order, nesting and payloads included, if and only if all types are below 0x4000 and all lengths fit in 16 bits |
| `Attributes.OneAttribute` | projects/reference_nic/sw/host/driver/lib/libnl-3.0/lib/attr.c:449-475 | One attribute is read back as written exactly under the same bounds |
| `Attributes.WalkEncode` | projects/reference_nic/sw/host/driver/lib/libnl-3.0/include/netlink/attr.h:260-264 | Iterating over an encoded forest visits its attributes in order with their payloads |
| `Attributes.DecodeEncode` | projects/reference_nic/sw/host/driver/lib/libnl-3.0/include/netlink/attr.h:260-276 | Iterating with recursion into nested attributes rebuilds the forest |
| `Attributes.SafeLengths` | projects/reference_nic/sw/host/driver/lib/libnl-3.0/lib/attr.c:488-517 | Every stream of a given length is walked without reading past its end if and only if the length is a multiple of four or below four |
| `AttrParser.Verdict` | projects/reference_nic/sw/host/driver/lib/libnl-3.0/lib/attr.c:527-562 | An attribute passes exactly if its type is out of range or its payload meets the policy: minimum, maximum, empty flag, terminated non-empty string |
| `AttrParser.VerdictByNumber` | projects/reference_nic/sw/host/driver/lib/libnl-3.0/lib/attr.c:519-562 | Every code by number: least lengths 0, 1, 2, 4, 8, 1, 0, 0, 0 by data type unless the policy gives one; -8 for a length out of bounds or a flag with payload, -7 for an admissible string that does not end in 0, otherwise 0 |
| `AttrParser.PassesByType` | projects/reference_nic/sw/host/driver/lib/libnl-3.0/lib/attr.c:519-562 | Without bounds of its own, exactly which payloads a policy of each type passes |
| `AttrParser.Validate` | projects/reference_nic/sw/host/driver/lib/libnl-3.0/lib/attr.c:636-650 | The result is the code of the first attribute refused, or zero |
| `AttrParser.Parse` | projects/reference_nic/sw/host/driver/lib/libnl-3.0/lib/attr.c:583-617 | The same code; on success each entry of the table is the last attribute of its type |
| `AttrParser.Find` | projects/reference_nic/sw/host/driver/lib/libnl-3.0/lib/attr.c:665-675 | The first attribute of the type, or none |
| `AttrParser.RefusalIsUnique` | projects/reference_nic/sw/host/driver/lib/libnl-3.0/lib/attr.c:583-650 | With a policy, parsing and validating the same stream return the same code |
| `AttrParser.FirstIsLast` | projects/reference_nic/sw/host/driver/lib/libnl-3.0/lib/attr.c:583-675 | Lookup and table agree on a type exactly if it occurs at most once |
| `AttrParser.OffsetsGrow` | projects/reference_nic/sw/host/driver/lib/libnl-3.0/lib/attr.c:511-517 | Attributes found by a walk lie at strictly increasing offsets |
| `Message.AllocMsg` | projects/reference_nic/sw/host/driver/lib/libnl-3.0/lib/msg.c:399-425 | An empty zeroed message of at least header size, or nothing without memory |
| `Message.NlMsg.Reserve` | projects/reference_nic/sw/host/driver/lib/libnl-3.0/lib/msg.c:550-571 | For every alignment, power of two or not: either room is added, zeroed and within the block, or nothing changes |
| `Bytes.RoundToFits` | projects/reference_nic/sw/host/driver/lib/libnl-3.0/lib/msg.c:556-556 | The rounding never cuts off what was asked for, whatever the alignment, and is NLMSG_ALIGN for four |
| `Bytes.RoundToPow2` | projects/reference_nic/sw/host/driver/lib/libnl-3.0/lib/msg.c:556-556 | For a power of two the rounding gives the least multiple that is large enough |
| `Message.NlMsg.NlaReserve` | projects/reference_nic/sw/host/driver/lib/libnl-3.0/lib/attr.c:798-822 | Refused exactly when old length plus new length exceed the block, with no change; otherwise the padded content gains a header, zeroed payload and zeroed padding, for every length: the header with the type that survives clearing the padding at the 16-bit offset |
| `Message.NlMsg.NlaPut` | projects/reference_nic/sw/host/driver/lib/libnl-3.0/lib/attr.c:839-855 | The same with the payload in place; earlier bytes never change |
| `Message.NlMsg.NestStart` | projects/reference_nic/sw/host/driver/lib/libnl-3.0/lib/attr.c:1130-1140 | An empty attribute is opened at a word boundary |
| `Message.NlMsg.NestEnd` | projects/reference_nic/sw/host/driver/lib/libnl-3.0/lib/attr.c:1152-1178 | Only the length field of the container changes and the message is padded; the failure the code rules out happens exactly when the block cannot hold the padding, never if its size is a multiple of four |
| `Builder.EmitAll` | projects/reference_nic/sw/host/driver/lib/libnl-3.0/lib/attr.c:1130-1178 | Putting and nesting a whole forest succeeds if and only if the last reservation on the way passes its test; the message then grows by exactly the recursive encoding of the forest as stored; on failure everything written before is still there |
| `Builder.EmitNest` | projects/reference_nic/sw/host/driver/lib/libnl-3.0/lib/attr.c:1130-1178 | The same for one container, opened, filled and closed |
| `Builder.StoredIsEncoding` | projects/reference_nic/sw/host/driver/lib/libnl-3.0/lib/attr.c:798-855 | What is stored is the recursive encoding of the forest if and only if no leaf has a length that wraps to 1, 2 or 3 and type bits in the bytes cleared |
| `Builder.FittingIsSpared` | projects/reference_nic/sw/host/driver/lib/libnl-3.0/lib/attr.c:798-855 | No forest that fits the format is affected |
| `Builder.EmittedRoundTrip` | projects/reference_nic/sw/host/driver/lib/libnl-3.0/lib/attr.c:798-855 | The bytes emission writes are read back as the forest if and only if all types and lengths fit their fields |
| `Builder.OversizedLosesType` | projects/reference_nic/sw/host/driver/lib/libnl-3.0/lib/attr.c:810-813 | Type 5 with 65533 bytes: the length field reads 1 and the type 0 |
| `Builder.AcceptedStep` | projects/reference_nic/sw/host/driver/lib/libnl-3.0/lib/attr.c:803-806 | A forest passes the space tests exactly if its first attribute does and then the others do |
| `Builder.RefusesWhatFits` | projects/reference_nic/sw/host/driver/lib/libnl-3.0/lib/attr.c:805-806 | 8 bytes behind a bare header make a message of 28 bytes and are refused in a block of 40 |
| `Genl.GenlPut` | projects/reference_nic/sw/host/driver/lib/libnl-3.0/lib/genl/genl.c:246-264 | Header fields are written; generic header and zeroed user header go to the front of the payload if there is room |
| `Genl.Convert` | projects/reference_nic/sw/host/driver/lib/libnl-3.0/lib/msg.c:522-536 | The copy has the same header and content in a block of aligned size; nothing without memory |
| `Genl.GenlParse` | projects/reference_nic/sw/host/driver/lib/libnl-3.0/lib/genl/genl.c:173-180 | Too short a message is refused; otherwise the attributes behind the aligned user header are parsed |
| `Genl.EndToEnd` | projects/reference_nic/sw/host/driver/lib/libnl-3.0/lib/genl/genl.c:146-264 | For every user header length: put, attributes, convert and parse succeed exactly if there is memory and room (twice the final length always is), and give back command, version and the attributes |
| `Errors.ByNumber` | projects/reference_nic/sw/host/driver/lib/libnl-3.0/include/netlink/errno.h:24-42 | The error codes as callers see them |
| `CacheTheorems.ExactlyTheKeyedTypes` | projects/reference_nic/sw/host/driver/lib/libnl-3.0/lib/cache.c:581-624 | Resynchronising is exact for every cache and every dump of an object type if and only if identity in that type is equality of keys |
| `CacheTheorems.ResyncIsExact` | projects/reference_nic/sw/host/driver/lib/libnl-3.0/lib/cache.c:581-624 | After a successful resync of a twin-free cache of a keyed type the list is exactly what the dump builds from an empty cache |
| `CacheTheorems.StaleEntryMasks` | projects/reference_nic/sw/host/driver/lib/libnl-3.0/lib/object.c:258-282 | With identity over shared attributes one stale entry is enough to make a resync wrong |
| `CacheTheorems.ResyncReplays` | projects/reference_nic/sw/host/driver/lib/libnl-3.0/lib/cache.c:581-624 | The resynchronised cache is the map the dump describes, and replaying the callbacks on the old map gives it |
| `CacheTheorems.SweepTells` | projects/reference_nic/sw/host/driver/lib/libnl-3.0/lib/cache.c:609-617 | The sweep announces exactly the marked objects, each once, in order |
| `CacheTheorems.IncludeRefinesMap` | projects/reference_nic/sw/host/driver/lib/libnl-3.0/lib/cache.c:519-555 | Including a message does to the map keyed by identity what it says, and replaying its callbacks keeps a listener in step |
| `CacheTheorems.IncludeReplaces` | projects/reference_nic/sw/host/driver/lib/libnl-3.0/lib/cache.c:519-555 | NEW replaces the identical entry, DEL removes it, and no two entries become identical |
| `CacheTheorems.CallbackTellsWhatChanged` | projects/reference_nic/sw/host/driver/lib/libnl-3.0/lib/cache.c:519-555 | The callback is NEW, CHANGE or DEL exactly when the key was absent, present with other contents, or present; a DEL carries the cached object |
| `CacheModel.IdentityIsKey` | projects/reference_nic/sw/host/driver/lib/libnl-3.0/lib/object.c:258-282 | For keyed types two objects are identical exactly when they have the same key |
| `CacheModel.IdentityOtherwise` | projects/reference_nic/sw/host/driver/lib/libnl-3.0/lib/object.c:258-282 | Objects of different or incomparable types are never identical; without fixed identifying attributes, exactly those that agree on all compared attributes they share |
| `CacheModel.DifferSeesAll` | projects/reference_nic/sw/host/driver/lib/libnl-3.0/lib/object.c:296-308 | Two objects differ exactly if their types differ or cannot compare, or some compared attribute differs |
| `CacheRefinement.IncludedListRefinesMap` | projects/reference_nic/sw/host/driver/lib/libnl-3.0/lib/cache.c:519-555 | On the list of nodes, whatever object is included, also one in that very cache: no twins arise, the map changes as meant, replayed callbacks agree |
| `CacheRefinement.RecognisedIffKeyed` | projects/reference_nic/sw/host/driver/lib/libnl-3.0/lib/cache.c:405-418 | A cached object finds itself by search exactly if it has all identifying attributes |
| `CacheRefinement.UnidentifiedIsAnnouncedAgain` | projects/reference_nic/sw/host/driver/lib/libnl-3.0/lib/cache.c:519-555 | A cached object without its identifying attributes is announced as new again when included, the map being unchanged |
| `CacheHeap.RenewedIsInclude` | projects/reference_nic/sw/host/driver/lib/libnl-3.0/lib/cache.c:519-555 | The list of nodes after including stands for the abstract list after including, with the same callbacks |
| `CacheHeap.FirstLikeIsSearch` | projects/reference_nic/sw/host/driver/lib/libnl-3.0/lib/cache.c:405-418 | The node found is the one the abstract search finds |
| `CacheHeap.Cache.AddTail` | projects/reference_nic/sw/host/driver/lib/libnl-3.0/include/netlink/list.h:27-41 | The node is last in a well-formed circular doubly linked list |
| `CacheHeap.Cache.Delete` | projects/reference_nic/sw/host/driver/lib/libnl-3.0/include/netlink/list.h:49-53 | The node is gone from the well-formed list and keeps its stale links |
| `CacheHeap.Library.Get` | projects/reference_nic/sw/host/driver/lib/libnl-3.0/lib/object.c:162-168 | One more outside reference |
| `CacheHeap.Library.Put` | projects/reference_nic/sw/host/driver/lib/libnl-3.0/lib/object.c:173-187 | One outside reference less; freed exactly if it was the last of all |
| `CacheHeap.Library.Alloc` | projects/reference_nic/sw/host/driver/lib/libnl-3.0/lib/object.c:42-62 | A new object with one reference, in no cache; nothing and no change without memory |
| `CacheHeap.Library.NewCache` | projects/reference_nic/sw/host/driver/lib/libnl-3.0/lib/cache.c:173-186 | A new empty cache; nothing and no change without memory |
| `CacheHeap.Library.AddRaw` | projects/reference_nic/sw/host/driver/lib/libnl-3.0/lib/cache.c:301-312 | The object is last in the cache, which takes over one reference |
| `CacheHeap.Library.Add` | projects/reference_nic/sw/host/driver/lib/libnl-3.0/lib/cache.c:324-341 | An object never linked goes in itself with a new reference, any other as a fresh unmarked copy; type mismatch and lack of memory change nothing |
| `CacheHeap.Library.Move` | projects/reference_nic/sw/host/driver/lib/libnl-3.0/lib/cache.c:353-370 | The object leaves whatever cache it is in for the end of this one; nobody gains or loses a reference; a type mismatch changes nothing |
| `CacheHeap.Library.Remove` | projects/reference_nic/sw/host/driver/lib/libnl-3.0/lib/cache.c:378-392 | The object leaves its cache, if any; freed exactly if nobody outside holds it |
| `CacheHeap.Library.Find` | projects/reference_nic/sw/host/driver/lib/libnl-3.0/lib/cache.c:405-418 | The first identical object with a reference taken, or none |
| `CacheHeap.Library.Clear` | projects/reference_nic/sw/host/driver/lib/libnl-3.0/lib/cache.c:266-274 | The list is empty and exactly the members nobody outside holds are freed |
| `CacheHeap.Library.Include` | projects/reference_nic/sw/host/driver/lib/libnl-3.0/lib/cache.c:519-555 | The list, the callbacks, who is freed, and no change of any reference count held outside, whichever of the objects involved are the same |
| `CacheHeap.Library.IncludeMessage` | projects/reference_nic/sw/host/driver/lib/libnl-3.0/lib/cache.c:557-572 | The first table row with the number of the message, before the table ends, decides; without one, or for an object of another type, nothing changes |
| `CacheHeap.RowDecides` | projects/reference_nic/sw/host/driver/lib/libnl-3.0/lib/cache.c:566-571 | The action is that of the first row with the number before the end of the table, and there is none exactly if there is no such row |
| `CacheHeap.Library.MarkObjects` | projects/reference_nic/sw/host/driver/lib/libnl-3.0/lib/cache.c:713-722 | Every member is marked, nothing else changes |
| `CacheHeap.Library.SweepObjects` | projects/reference_nic/sw/host/driver/lib/libnl-3.0/lib/cache.c:609-617 | Exactly the marked members leave, with a deletion callback each, under the safe iterator |
| `CacheHeap.Library.ReceiveAll` | projects/reference_nic/sw/host/driver/lib/libnl-3.0/lib/cache.c:464-492 | The messages of a dump are included in turn; every parsed object is released or held by the cache alone |
| `CacheHeap.Library.ResyncObjects` | projects/reference_nic/sw/host/driver/lib/libnl-3.0/lib/cache.c:581-624 | In memory, resync does to the list what the abstract resync does, errors included; an object is freed exactly if it left the cache unheld, and nothing new is left over outside the cache |
| `Datagram.SplitJoin` | projects/reference_nic/sw/host/driver/lib/libnl-3.0/lib/msg.c:317-339 | A datagram splits into exactly the messages it was made of |
| `Datagram.SplitJoinUnpadded` | projects/reference_nic/sw/host/driver/lib/libnl-3.0/lib/msg.c:317-339 | Also when the padding of the last message is missing |
| `HeaderWire.HeaderRead` | projects/reference_nic/sw/host/driver/lib/libnl-3.0/lib/msg.c:317-339 | The readers give back length, type, sequence number and the flag bits of a header written in bytes |
| `HeaderWire.ErrorRead` | projects/reference_nic/sw/host/driver/lib/libnl-3.0/lib/nl.c:626-640 | The signed error code behind the header is read back, and the message is whole exactly if 16 more bytes follow |
| `ReceiveTheorems.Delivery` | projects/reference_nic/sw/host/driver/lib/libnl-3.0/lib/nl.c:523-705 | With agreeable callbacks NL_CB_VALID gets exactly the data messages passed, in order; either all messages of the datagrams read were passed, or the next one failed by default and gives the result |
| `ReceiveTheorems.ReadsWhileOpen` | projects/reference_nic/sw/host/driver/lib/libnl-3.0/lib/nl.c:595-696 | A call reads on exactly while a multipart sequence is open, or until nothing more comes |
| `ReceiveTheorems.OpenMeans` | projects/reference_nic/sw/host/driver/lib/libnl-3.0/lib/nl.c:595-617 | Open means: some multipart message was not followed by NLMSG_DONE |
| `ReceiveTheorems.OkHandle` | projects/reference_nic/sw/host/driver/lib/libnl-3.0/lib/nl.c:545-684 | With agreeable callbacks a message ends the call exactly if it fails by default; otherwise it is delivered exactly if it is data |
| `ReceiveTheorems.OkCalls` | projects/reference_nic/sw/host/driver/lib/libnl-3.0/lib/nl.c:558-680 | With agreeable callbacks a message that does not fail by default makes exactly the callbacks that are set and due for it, raw first, then the sequence check, the one for its type last |
| `ReceiveTheorems.TypesByNumber` | projects/reference_nic/sw/host/driver/lib/libnl-3.0/lib/nl.c:580-680 | Message types 1 to 4 and the codes -16, -17, -18, by number |
| `ReceiveTheorems.NeverOutOfOrder` | projects/reference_nic/sw/host/driver/lib/libnl-3.0/lib/nl.c:508-705 | Whatever callbacks answer, what is delivered is a subsequence of the data messages of the datagrams read |
| `ReceiveAnswers.AnswersRule` | projects/reference_nic/sw/host/driver/lib/libnl-3.0/lib/nl.c:508-705 | For any callbacks, over a whole call: callbacks fall to the messages begun, in order; answer 1 ends its message and the call goes on, 2 ends the call with 0, any other but 0 ends it with that value; for the error callback a negative answer is the result, 2 gives the translated error, others go on; lack of memory ends it with -5 |
| `ReceiveAnswers.StateMoves` | projects/reference_nic/sw/host/driver/lib/libnl-3.0/lib/nl.c:560-617 | The expected number and the multipart flag stay if the raw or sequence callback objects; otherwise they move with the message, DONE clearing the flag unless the acknowledgement callback objects |
| `SeqWindow.WindowIsOutstanding` | projects/reference_nic/sw/host/driver/lib/libnl-3.0/lib/nl.c:291-309 | Over every run with a peer that answers the requests in order under the numbers they were sent with, next minus expected sequence number modulo 2^32 is the number of requests not yet closed |
| `SeqWindow.StepKeepsWindow` | projects/reference_nic/sw/host/driver/lib/libnl-3.0/lib/nl.c:565-593 | Each request, arrival and receive call keeps that, and a receive call meets no message with another number than the expected one |
| `SeqWindow.AnswersLeft` | projects/reference_nic/sw/host/driver/lib/libnl-3.0/lib/nl.c:565-593 | What is left of in-order answers after any number of datagrams answers the requests left, from the number after those closed |
| `SeqWindow.WholeAnswer` | projects/reference_nic/sw/host/driver/lib/libnl-3.0/lib/nl.c:580-593 | Data messages with the number of a request, then DONE or an error message, in one datagram are an answer to it |
| `SeqWindow.AgreeableIsPatient` | projects/reference_nic/sw/host/driver/lib/libnl-3.0/lib/nl.c:548-578 | Callbacks that always go on meet the conditions of the window when the default check is in force |
| `SeqWindow.CallKeepsStep` | projects/reference_nic/sw/host/driver/lib/libnl-3.0/lib/nl.c:565-593 | A call moves the expected number once per request closed by what it reads and leaves the rest of the answers for the next call |
| `SeqWindow.OnlyExpectedDelivered` | projects/reference_nic/sw/host/driver/lib/libnl-3.0/lib/nl.c:565-578 | With the default check and no callback to excuse a mismatch, only data with the expected number is delivered, whatever arrives |
| `RecvLoop.Socket.HandleMessage` | projects/reference_nic/sw/host/driver/lib/libnl-3.0/lib/nl.c:560-682 | One message through the callbacks: the state machine's step, with the socket's expected number updated in place |
| `RecvLoop.Socket.ReadDatagram` | projects/reference_nic/sw/host/driver/lib/libnl-3.0/lib/nl.c:544-684 | The walk through a datagram ends and does what handling its messages in turn does; at most the current message is still allocated |
| `RecvLoop.Socket.Recvmsgs` | projects/reference_nic/sw/host/driver/lib/libnl-3.0/lib/nl.c:523-705 | The result, callbacks and datagrams read are those of the state machine; every buffer, message and set of credentials allocated is freed exactly once on every path, through the loop end and through the exit |
| `RecvLoop.Socket.Complete` | projects/reference_nic/sw/host/driver/lib/libnl-3.0/lib/nl.c:291-309 | Unnumbered messages take the next sequence number, unaddressed ones the local port, those without protocol the socket's; request and acknowledgement flags are set |
| `RecvLoop.RequestBits` | projects/reference_nic/sw/host/driver/lib/libnl-3.0/lib/nl.c:305-308 | Bit 0 is set, bit 2 exactly with automatic acknowledgement or if it was, every other bit unchanged |
| `Ports.PortMap.Generate` | projects/reference_nic/sw/host/driver/lib/libnl-3.0/lib/socket.c:47-72 | The least free of 1024 indices is taken and makes the number with the process id; nothing changes when all are taken |
| `Ports.PortMap.Release` | projects/reference_nic/sw/host/driver/lib/libnl-3.0/lib/socket.c:74-83 | Exactly the port's own bit is cleared |
| `Ports.Number` | projects/reference_nic/sw/host/driver/lib/libnl-3.0/lib/socket.c:47-72 | The number gives back its index and the process id modulo 2^22, and is the failure value exactly for the last index with the all-ones process id |
| `Ports.UsedChanges` | projects/reference_nic/sw/host/driver/lib/libnl-3.0/lib/socket.c:59-82 | Setting or clearing a bit of a word changes the set of used ports by exactly that port |
| `Sockets.Registry.Alloc` | projects/reference_nic/sw/host/driver/lib/libnl-3.0/lib/socket.c:90-110 | Assigned ports stay pairwise distinct with their bits set; allocation fails exactly when there is no memory, none is free, or the number would be the failure value |
| `Sockets.Registry.Free` | projects/reference_nic/sw/host/driver/lib/libnl-3.0/lib/socket.c:149-162 | An assigned port becomes free again, and no other |
| `Sockets.Registry.SetLocalPort` | projects/reference_nic/sw/host/driver/lib/libnl-3.0/lib/socket.c:255-267 | A number of the caller's own releases an assigned port; an automatic one takes the least free and leaves the former port's bit set for good |

## Left out

Assumptions and simplifications:

- Memory is sequentially consistent (the driver places barriers around every flag store), and a flag store or load is one step.
- Statistics, counters of callbacks and lengths held in C `int` are unbounded; 16-bit and 32-bit fields, sequence numbers, ports, flags and register addresses are bounded as in C.
- Multi-byte fields are little-endian, as on the machines the driver runs on.
- The IP address flip and checksum of loopback mode happen before the packet reaches the ring; packets are arbitrary bytes here.
- The kernel runs at most one transmit call per netdev at a time and re-polls NAPI while it is scheduled; both are taken from it.
- GhostDriver.Driver.Xmit: the DMA memory is a field holding sequences, so aliasing of the three arrays of the region is not part of the class; `DmaRegion.CellsPartition` shows that they do not overlap.
- HardwareTx.DeviceSeesAll: the device is assumed to release only full buffers and in ring order.
- RegWindow.RunRefinesFlat: device registers are assumed to hold what was last written; registers that change by themselves are outside the refinement.
- DmaRegion.Probe: bringing up the device after the allocation is one outcome.
- AttrParser.Validate: a stream on which the code would read past its end (see `Attributes.SafeLengths`) is walked only up to that point.
- AttrParser.Parse: the same.
- AttrParser.Find: the same.
- CacheHeap.Library.Remove: the count is decremented before the reference is dropped, the other way round in the source, because nothing can observe the difference.
- CacheHeap.Library.Add: objects hold plain values; cloning of objects with embedded lists is not part of this model.
- CacheHeap.Library.ResyncObjects: sending the request and receiving the dump are an outcome and a list of messages; the callback has no effect on the cache; a parser that finds no memory for an object ends the dump.
- RecvLoop.Socket.Recvmsgs: datagrams come from a list that ends with a read bringing nothing; the sender's address is not shown; callbacks take no references of their own to messages.
- SeqWindow.WindowIsOutstanding: the message and sequence callbacks are not set and none stops at a data message, and a closing message ends its datagram; callbacks that stop early or replace the check are outside the claim.

Not modelled, because it is glue around foreign calls or would only add easy members:

- `genl_cmd_dma_tx`, `genl_cmd_dma_rx`, NAPI enable and disable commands, PCI probing and removal, device reset and start, netdev registration, `/proc`.
- `nl_recv`, `nl_send` and relatives, `nl_connect`, `nl_wait_for_ack`, socket options and group membership.
- `nl_cache_subset`, `nl_object_match_filter`, cache iteration with filters and dumping, the cache manager and the tables of cache and family types.
- Typed attribute accessors, string helpers, addresses, message printing, `nlmsg_expand`, and all command-line tools and examples.

# Verified models of the router, the transport and the file directory

Three components of the repository keep state that is easy to get subtly wrong. This project models
each of them in Dafny, close to the C code, and proves what they guarantee. Arrays, rings and tries
that the code updates in place are classes here; each is proved against functions on values, and the
main results are about those functions and about state machines built from them.

**Link-state router** (`PA3/router.c`). Each router stores the last packet accepted from every
origin and recomputes its rows with a greedy scan.
`LinkState` holds the functions, `ShortestPath` the optimality of the settle loop, `Updates` runs of
one router, `RouterTable` the arrays updated in place (byte indices, 32 rows, int16 costs),
`RouterIO` the socket loops, `Flooding` a network of routers over reliable links, `Freshness` its
sequence numbers, `Draining` why it comes to rest, and `Forwarding` hop-by-hop delivery over the rows
that flooding leaves.

**Sliding-window transport** (`PA2/GBNframework`). `Windows` has the two six-slot rings, as values
and as mutable windows with the byte-sized counters of the code. `Transport` is a step system of the
writer thread, the reader thread, the two users and a channel that drops, duplicates and reorders.
`Streams` relates the bytes written to the bytes returned, `Progress` shows what one loss-free round
achieves, `Delivery` exactly when everything written can still be handed up, `Wraps` exactly which
rounds survive a wrap of the receive head, `FaultyRuns` exhibits failing runs, and `Sockets` has the
block queue and the read and write calls.

**File directory** (`PA4`). `Tries` is the nibble trie as a value, `TrieHeap` the same trie on the
heap, `TrieWalks` positions and read-only iteration, `Records` the record printer and parser,
`Directory` the server's map with registration and with deregistration by a callback that writes into
the trie during the traversal, `Listing` the LIST command from the server's map to the client's, and
`Transfers` exactly when that transfer is right.

## Where the code falls short of its purpose

The models follow the code. Where a desired property fails, a lemma shows a failing input and
another states exactly when the property holds.

- `packet_has_update` compares only the first entry of two packets of the same length
  (`PA3/router.c:371-377`): `Updates.UpdateCheckExact`, `Updates.NewestKnownExact`,
  `Updates.UpdateCheckMissesChange`. The network results do not depend on this, because neighbour
  tables are fixed after start-up.
- An acknowledgement is compared with a stale slot when the sending window is empty
  (`PA2/GBNframework/gbn_read.c:19-27`): `Windows.AckExact`. The sender can then forget a packet that
  was never delivered: `FaultyRuns.LostPacketRun`. What does arrive stays right:
  `Transport.StepTransfers`.
- A signal to the writer is lost if the writer does not wait yet, and a writer that times out with an
  empty window waits again without looking at its queue (`PA2/GBNframework/gbn_write.c:199-237`):
  `FaultyRuns.LostWakeupRun`. Data queued later is then never sent: `Delivery.AsleepForEver`,
  `Delivery.RunDelivers`.
- The head of the receive window is a byte that is never reduced modulo 6
  (`PA2/GBNframework/gbn_read.c:171`): `Windows.DataStepExact`, `FaultyRuns.WrapDeliversWrongBlock`,
  `Wraps.WrapMisplaces`, `Wraps.NeverStuckExact`.
- `gbn_socket_read` ignores its offset into the first block (`PA2/GBNframework/gbn_socket.c:150`) and
  does not test that block's closing flag: `Streams.FirstCopyExact`, `Sockets.ReadCallExact`,
  `Streams.SecondReadRepeats`, `Sockets.ReadHangsExactly`.
- The record printer cuts lines that the parser's own limits admit (`PA4/pa4str.c:106-115`):
  `Records.RecordSurvivesExactly`, `Records.CleanRecordCut`, `Transfers.ListTransfersExactly`.
- The trie shifts a signed character (`PA4/trie.c:28`), so only 7-bit characters index inside the
  table: `Tries.PutIndexedExact`, `Tries.GetIndexedExact`, `Tries.PutLeavesTable`.

The comment over `GET_SEND_FRAME_id_delta` promises -1 for an invalid acknowledgement; the code
returns -2, and its caller relies on that. The model follows the code.

## Model

| member | source | states |
|---|---|---|
| LinkState.IndexOf | PA3/router.c:414-422 | the row number that rebuilding the index leaves for a node: the last row with that identifier, -1 exactly if there is none |
| LinkState.NeighborIndex | PA3/router.c:393-402 | the first neighbour with the given identifier |
| LinkState.ScanNodes | PA3/router.c:513-537 | a scan never proposes a node that is already settled |
| ShortestPath.ScanLinksLeast | PA3/router.c:424-439 | folding links into the best candidate yields the least by cost, then source, then destination, and it is one of those links |
| ShortestPath.ScanNodesLeast | PA3/router.c:513-541 | a scan finds nothing exactly when no known link leaves the settled set, and otherwise the least such link |
| ShortestPath.SettleStep | PA3/router.c:543-554 | settling the least candidate keeps the invariant: costs at most 255 per step and non-decreasing, links relaxed, the frontier no nearer, every row attained through its gateway |
| ShortestPath.NeighborRowAttained | PA3/router.c:404-407 | a direct neighbour becomes its own gateway and its row is attained by that link |
| ShortestPath.DistantRowAttained | PA3/router.c:408-411 | any other node inherits its predecessor's gateway, and its row is attained by a path through that gateway |
| ShortestPath.SettleAllInv | PA3/router.c:511-555 | the whole settle loop keeps what is known, keeps rows distinct, ends in one of its two ways, and ends with the invariant |
| ShortestPath.SettledRowsOptimal | PA3/router.c:506-555 | a settled row is the minimum over all walks of the known graph; no unsettled node is nearer than a settled one |
| ShortestPath.GatewayOptimal | PA3/router.c:404-412 | the gateway is a direct neighbour, and cost = link cost + minimum cost from the gateway to the destination |
| ShortestPath.SettledSetOnExit | PA3/router.c:511-542 | on normal exit the settled set is the router and all its rows; on the other exit it is exactly what the known graph reaches |
| Updates.UpdateCheckExact | PA3/router.c:366-382 | for newer packets, exactly when the check detects changed contents |
| Updates.NewestKnownExact | PA3/router.c:472-488 | what the router then knows of the origin is what the newer packet reports, exactly when the lengths differ, or both are empty, or the first entries differ, or the remaining ones agree |
| Updates.UpdateCheckMissesChange | PA3/router.c:371-377 | a concrete newer packet with a changed second entry is discarded and the router keeps the old cost |
| Updates.OldDiscarded | PA3/router.c:366-382 | a packet that is not newer than the stored one of its origin is discarded and changes nothing at all |
| Updates.FirstKept | PA3/router.c:468-502 | the first packet of another router is kept, except one numbered 0 when that router already has a row, and a router's own packet never is |
| Updates.SeqNumNeverFalls | PA3/router.c:460-504 | over any packets in any order, what is stored of an origin is only ever replaced by one of the later packets with a larger sequence number |
| Updates.StoreEffect | PA3/router.c:472-502 | accepting a packet stores it under its origin and leaves every other packet and cost alone, with rows still distinct |
| Updates.DiscardEffect | PA3/router.c:472-488 | discarding a packet changes nothing that the router computes with |
| Updates.UpdateSound | PA3/router.c:460-557 | after any packet, kept or discarded, the rows are exact for what is then known, and exactly the accepted packet is new |
| Updates.EveryRunExact | PA3/router.c:460-557 | the rows are exact after any packets in any order |
| Updates.RunRowsOptimal | PA3/router.c:460-557 | after any packets: minimum costs, gateways, order of settling, and what the settled set is, in one statement |
| RouterTables.CostArithmeticSafe | PA3/router.c:441-458 | the k-th settled node costs at most 255*k, so no candidate cost exceeds 31*255, changes in a uint16 or int16 conversion, or equals -1 |
| RouterTables.RowsFit | PA3/router.c:548 | with at most 32 routers there is always room for one more row |
| RouterTables.NextFits | PA3/router.c:543-554 | every settle turn stays inside the fixed arrays, and the gateway lookup always finds its neighbour or row |
| RouterTables.RouterTable.GetRoutingEntryForNode | PA3/router.c:284-292 | returns the row of the node or NULL; the comparison with `>` never lets an index past the count through |
| RouterTables.RouterTable.RebuildRoutingTable | PA3/router.c:414-422 | the index becomes the exact inverse of the row array |
| RouterTables.RouterTable.GetNeighborIdx | PA3/router.c:393-402 | returns the first matching neighbour |
| RouterTables.RouterTable.GetGatewayIdx | PA3/router.c:404-412 | returns the gateway of the candidate's predecessor, or the neighbour itself |
| RouterTables.RouterTable.SetHasNode | PA3/router.c:384-391 | membership in the settled set |
| RouterTables.RouterTable.ScanNeighbors | PA3/router.c:515-521 | folds the router's own neighbours into the best candidate |
| RouterTables.RouterTable.ScanPacket | PA3/router.c:524-532 | folds a stored packet's links into the best candidate, with the code's int16 arithmetic |
| RouterTables.RouterTable.FindShortest | PA3/router.c:512-537 | the nested scan computes the least candidate |
| RouterTables.RouterTable.AddEntry | PA3/router.c:548-551 | appends an empty row for a node without one and keeps the index inverse to the rows |
| RouterTables.RouterTable.WriteEntry | PA3/router.c:553-554 | fills in exactly one row and leaves the index alone |
| RouterTables.RouterTable.SettleEntry | PA3/router.c:544-554 | writes exactly the settled node's row, adding it and rebuilding the index if it is new |
| RouterTables.RouterTable.Settle | PA3/router.c:506-556 | the loop over the growing row array terminates and computes the settle loop on values |
| RouterTables.RouterTable.HasUpdate | PA3/router.c:366-382 | the loop that returns on its first turn |
| RouterTables.RouterTable.StorePacket | PA3/router.c:468-502 | stores or discards a packet; a discarded packet can still leave a zeroed one behind |
| RouterTables.RouterTable.UpdateRoutingTable | PA3/router.c:460-557 | the in-place update equals the function on values, keeps the index inverse to the rows, and keeps the rows exact |
| RouterTables.RouterTable.CreatePacket | PA3/router.c:270-281 | a fresh sequence number and the router's own neighbour table |
| RouterIO.WriteToNeighbors | PA3/router.c:50-55 | one copy to every neighbour except the one the packet came from |
| RouterIO.ReadPacket | PA3/router.c:42-60 | processing a packet and re-flooding it is exactly one delivery step of the network; a kept packet is written once to every neighbour other than the one it came from, a discarded one to none |
| RouterIO.BroadcastPacket | PA3/router.c:62-72 | a broadcast is exactly one broadcast step of the network, and writes the router's own table once to every neighbour |
| Flooding.DeliverWrites | PA3/router.c:42-57 | what a delivery does to the number of copies of each packet in flight: one less of the packet read, and if it was kept one more towards each neighbour other than the one it came from |
| Flooding.BroadcastWrites | PA3/router.c:62-72 | a broadcast adds exactly one copy towards each neighbour, under the next sequence number |
| Flooding.StepInv | PA3/router.c:42-57 | every step keeps: stored and travelling packets are true, rows are exact, and a neighbour of a holder holds the packet or has it on the wire |
| Flooding.RunInv | PA3/router.c:74-124 | that invariant holds in every state of every run |
| Flooding.FloodingConverges | PA3/router.c:42-72 | in a connected network, in any reachable state where all have broadcast and nothing is in flight, every router stores every other router's true table |
| Flooding.RowsNeverUnderstate | PA3/router.c:460-557 | in every state of every run a finite row is the cost of a real path through its gateway |
| Flooding.UpdateNeverRaises | PA3/router.c:460-557 | processing a true packet never raises a finite cost and never loses a row |
| Flooding.CostsOnlyFall | PA3/router.c:460-557 | along a run the cost of a finite row only falls |
| Flooding.CompleteRowsExact | PA3/router.c:506-555 | once one router stores every table, whatever the others store, its row of each reachable router is the true distance |
| Freshness.BroadcastIsNewest | PA3/router.c:270-281 | in every state of every run a broadcast packet is strictly newer than every packet of that router in flight or stored anywhere |
| Freshness.StoredOnlyNewer | PA3/router.c:366-382 | along every run of the network, with packets overtaking each other, what a router stores of an origin only gets newer |
| Draining.DeliverDrops | PA3/router.c:42-57 | every packet read lowers a measure of missing packets and packets in flight, re-flooding included |
| Draining.DeliveriesBounded | PA3/router.c:42-57 | between broadcasts no more packets can be read than the measure allows |
| Draining.FloodingFinishes | PA3/router.c:42-72 | from any reachable state of a connected network in which all have broadcast, every way of reading what is in flight is bounded, one leaves nothing in flight, and then all routers know the whole topology |
| Forwarding.HopDescends | PA3/router.c:404-412 | the recorded cost drops at each hop by exactly the cost of the link taken |
| Forwarding.ForwardingReaches | PA3/router.c:553-554 | with positive costs forwarding reaches any reachable destination without visiting a router twice, over a path whose length is the recorded cost |
| Forwarding.QuietNetworkDelivers | PA3/router.c:30-72 | after any run of a connected network that has gone quiet, traffic between any two routers arrives along a cheapest path |
| Windows.RingPut | PA2/GBNframework/gbn_write.c:125-130 | packet s goes to slot s mod 6 and the ring keeps the last six packets, whatever the head and the size say |
| Windows.PutOk | PA2/GBNframework/gbn_write.c:125-130 | sending into a window with room writes a free slot and keeps the window right |
| Windows.AckCountExact | PA2/GBNframework/gbn_read.c:19-27 | on a non-empty window an acknowledgement covers exactly the packets up to it, and never more than the window holds |
| Windows.AckExact | PA2/GBNframework/gbn_read.c:97-107 | an acknowledgement keeps the window right if and only if it does not look valid on an empty window; on a non-empty window it moves the base right behind the packet it names, or not at all |
| Windows.DuplicateAckCorrupts | PA2/GBNframework/gbn_read.c:99-105 | a concrete repeated acknowledgement makes an empty window claim 254 packets |
| Windows.RetransmitExact | PA2/GBNframework/gbn_write.c:227-281 | with no acknowledgement in between, retransmission sends exactly the unacknowledged packets in order, the full ring included |
| Windows.AcceptOk | PA2/GBNframework/gbn_read.c:129-140 | a genuine frame is buffered at its own offset and nothing buffered is lost |
| Windows.DrainOneExact | PA2/GBNframework/gbn_read.c:156-176 | one turn of the drain hands up the next packet, and keeps the ring right if and only if the head byte does not wrap in front of buffered frames |
| Windows.LoadDrops | PA2/GBNframework/gbn_read.c:156-176 | every turn of the drain empties one slot, so the loop stops |
| Windows.DataStepExact | PA2/GBNframework/gbn_read.c:129-176 | handling a data frame hands up the next packets in order and leaves a maximally drained, correctly placed ring, if and only if the drain does not wrap the head under buffered frames |
| Windows.SendRing.Insert | PA2/GBNframework/gbn_write.c:125-130 | the window update of `send_packet` |
| Windows.SendRing.IdDelta | PA2/GBNframework/gbn_read.c:19-27 | the difference, or -2, computed with 32-bit arithmetic |
| Windows.SendRing.HandleAck | PA2/GBNframework/gbn_read.c:97-115 | the new window, and that the writer is signalled exactly for a valid-looking acknowledgement |
| Windows.SendRing.Retransmit | PA2/GBNframework/gbn_write.c:227-281 | the do-while puts exactly the sweep from head to tail on the wire |
| Windows.ReceiveRing.Store | PA2/GBNframework/gbn_read.c:129-140 | buffers a frame exactly if its number lies in the window |
| Windows.ReceiveRing.DrainAll | PA2/GBNframework/gbn_read.c:156-176 | the drain loop stops with an empty front slot and hands up what the function on values hands up |
| Windows.ReceiveRing.HandleData | PA2/GBNframework/gbn_read.c:129-181 | store, drain, and acknowledge the last packet taken |
| Transport.Chunks | PA2/GBNframework/gbn_socket.c:257-294 | the blocks put together are the buffer, each has 1 to 4096 bytes, and all but the last are full |
| Transport.WriterCarries | PA2/GBNframework/gbn_write.c:56-281 | every writer state keeps the ring right and puts only genuine or blank frames on the wire, whatever acknowledgements did to the head and the size |
| Transport.WriterKeeps | PA2/GBNframework/gbn_write.c:56-281 | with a right window the writer never writes into a full ring and acknowledges nothing by itself |
| Transport.RingGenuine | PA2/GBNframework/gbn_write.c:242-278 | whatever slot retransmission reads, however acknowledgements moved the head, misread ones included, holds a sent frame or a blank one |
| Transport.StepTransfers | PA2/GBNframework/gbn_read.c:97-187 | under any acknowledgements a step keeps frames genuine, both rings right and the delivered packets in order, if and only if the receive head does not wrap in front of buffered frames |
| Transport.RunTransfers | PA2/GBNframework/gbn_read.c:97-187 | the same over whole runs |
| Transport.StepExact | PA2/GBNframework/gbn_read.c:97-187 | a step keeps the protocol invariant, counters and acknowledgements included, if and only if it is not one of the two faults |
| Transport.RunExact | PA2/GBNframework/gbn_read.c:97-187 | the invariant holds in every state of a run if and only if no step of the run is a fault |
| Streams.FirstCopyExact | PA2/GBNframework/gbn_socket.c:148-157 | the first turn of a read accounts for all bytes, whatever the first block holds, if and only if it starts at offset zero or copies nothing |
| Streams.SecondReadRepeats | PA2/GBNframework/gbn_socket.c:148-150 | two one-byte reads of the block [1, 2] return [1, 1] |
| Streams.StepStream | PA2/GBNframework/gbn_socket.c:136-197 | every step accounts for all bytes written and returned, except a read that starts inside a block |
| Streams.EndToEndPrefix | PA2/GBNframework/gbn_socket.c:136-197 | under any loss, duplication and reordering of frames and acknowledgements, the bytes returned are a prefix of the bytes written, in every state of a run in which the receive head does not wrap in front of buffered frames and no read starts inside a block |
| Streams.NothingLost | PA2/GBNframework/gbn_read.c:97-187 | without a wrap, exactly the first packets were handed up, once each and in order; while no acknowledgement was misread either, base <= receive counter <= next <= base + 6 and acknowledgements in flight are below the counter |
| Progress.WriterWaits | PA2/GBNframework/gbn_write.c:56-171 | with packets unacknowledged the writer reaches its waiting state |
| Progress.RetransmitsAll | PA2/GBNframework/gbn_write.c:199-281 | a timeout then puts exactly the unacknowledged packets on the wire, nothing if there are none, and the writer waits again |
| Progress.TakesAll | PA2/GBNframework/gbn_read.c:129-187 | delivering them in order brings the receiver up to date and acknowledges the last one |
| Progress.WrapBlocks | PA2/GBNframework/gbn_read.c:171 | a frame buffered beyond the wrap of the head byte is never taken by any fault-free continuation |
| Progress.UserEmpties | PA2/GBNframework/gbn_socket.c:136-197 | reads can always empty the queue of arrived blocks |
| Progress.RoundCompletes | PA2/GBNframework/gbn_write.c:227-281 | with no acknowledgement misread and no frame beyond the wrap, a loss-free round without any read hands up every packet, once each and in order, and empties the window, when what may be outstanding fits the queue |
| Progress.NeverStuck | PA2/GBNframework/gbn_write.c:227-281 | from every state of the writer with unacknowledged packets, whatever the channel holds, while no acknowledgement was misread and no frame is buffered beyond the wrap of the receive head, a loss-free round without new data hands up every packet and empties the window |
| Delivery.AsleepForEver | PA2/GBNframework/gbn_write.c:199-237 | a writer that waits with nothing outstanding and no signal due never numbers another block, whatever is written, without a fault or a spurious wake-up |
| Delivery.FallsAsleepExactly | PA2/GBNframework/gbn_write.c:156-237 | the three steps that put the writer to sleep: deciding to wait with nothing outstanding or queued, a signal given while nobody waits, a timeout that overtakes a signal |
| Delivery.AttentiveOn | PA2/GBNframework/gbn_write.c:199-217 | once a wait has ended with packets outstanding or a signal due, the writer never sleeps again in a fault-free run in which no timeout overtakes a signal |
| Delivery.ReadyUntilSent | PA2/GBNframework/gbn_write.c:53-76 | a writer that finds its window empty does not wait for a signal before it has numbered a block |
| Delivery.NumbersNext | PA2/GBNframework/gbn_write.c:56-149 | with an empty window, and not asleep, the writer numbers the first block not yet numbered |
| Delivery.DeliversAll | PA2/GBNframework/gbn_write.c:56-281 | from any state of the writer that does not sleep on data, with no frame beyond the wrap, every block written is numbered, handed up once and in order, and acknowledged |
| Delivery.DeliveryExact | PA2/GBNframework/gbn_write.c:199-281 | without spurious wake-ups some fault-free continuation hands up everything written if and only if no frame is buffered beyond the wrap and the writer does not sleep on data |
| Delivery.DeliveryWithWakes | PA2/GBNframework/gbn_write.c:199-217 | with spurious wake-ups, from every state of the writer, some fault-free continuation hands up everything written if and only if no frame is buffered beyond the wrap |
| Delivery.RunDelivers | PA2/GBNframework/gbn_write.c:56-281 | in every state of a fault-free run, every byte written so far can still be handed up, in order, if and only if no frame is buffered beyond the wrap and the writer does not sleep on data |
| Wraps.WrapMoves | PA2/GBNframework/gbn_read.c:156-176 | where each of the six slots stands once the head byte has gone from 255 to 0 |
| Wraps.WrapMisplaces | PA2/GBNframework/gbn_read.c:156-176 | with packet p + 3 buffered when packet p is drained at head 255, every continuation, faults and reordering included, has not handed up packet number p + 1, or has handed up packet p + 3 in its place |
| Wraps.CannotDeliver | PA2/GBNframework/gbn_read.c:129-187 | from every state of the writer in which no acknowledgement was misread, without a deliverable number of packets every round without new data, faults allowed, goes wrong or does not end |
| Wraps.NeverStuckExact | PA2/GBNframework/gbn_write.c:199-281 | where the writer waits with unacknowledged packets and no acknowledgement was misread, some round without new data, faults allowed, hands up every packet right and empties the window, if and only if the frame three beyond the wrap is not buffered and, by numbering none or some of the queued blocks, the last packet can be kept from leaving a stale frame in front |
| FaultyRuns.LostWakeupRun | PA2/GBNframework/gbn_write.c:199-237 | a state reached without a fault, in which the first acknowledgement came before the writer first waited, and a block queued since is never sent |
| FaultyRuns.DuplicateAckRun | PA2/GBNframework/gbn_read.c:99-105 | a reachable state whose window claims 255 packets after a duplicated acknowledgement |
| FaultyRuns.LostPacketRun | PA2/GBNframework/gbn_read.c:99-105 | a reachable state in which packet 1 was never delivered and no slot of the sender holds it any more |
| FaultyRuns.WrapDeliversWrongBlock | PA2/GBNframework/gbn_read.c:169-171 | a reachable state in which the 257th block handed up is the 259th block sent |
| Sockets.BlockQueue.PushChunk | PA2/GBNframework/blockqueue.c:19-34 | appends to the queue |
| Sockets.BlockQueue.PopChunk | PA2/GBNframework/blockqueue.c:36-51 | drops the oldest block, or returns -1 and leaves an empty queue alone |
| Sockets.BlockQueue.PeekChunk | PA2/GBNframework/blockqueue.c:54-67 | the oldest block |
| Sockets.SocketWrite | PA2/GBNframework/gbn_socket.c:257-294 | the loop pushes the blocks of the buffer to the queue in order, as many as there is room for, and would wait exactly when there are more; a write that returns reports the length of the buffer |
| Sockets.ReadSide.Read | PA2/GBNframework/gbn_socket.c:136-197 | what a read returns, what it leaves in the block queue, its offset, and when it would wait |
| Sockets.ReadSide.ReadOn | PA2/GBNframework/gbn_socket.c:159-190 | the loop of the read, over the block queue |
| Sockets.ReadExact | PA2/GBNframework/gbn_socket.c:145-197 | a read that starts at a block boundary and returns hands out exactly the next bytes of the stream and leaves the rest |
| Sockets.ReadCallExact | PA2/GBNframework/gbn_socket.c:145-197 | a read is right whatever its first block holds, if and only if it starts at offset zero, or copies nothing from that block, or waits |
| Sockets.ReadHangsExactly | PA2/GBNframework/gbn_socket.c:148-168 | on a closed stream a read waits for ever if and only if the closing block is already the first one |
| Sockets.EndAfterLastByte | PA2/GBNframework/gbn_socket.c:148-168 | after a read that ends exactly at a block's last byte, the next read notices the closing block behind it |
| Sockets.ReadStepsAreCall | PA2/GBNframework/gbn_socket.c:136-197 | taken a turn at a time, as in the step system, a read returns what the whole call returns |
| Tries.IndexableExact | PA4/trie.c:27-31 | the shifted character indexes inside the table exactly for 7-bit characters after the first, and is then the high nibble |
| Tries.PutIndexedExact | PA4/trie.c:43-82 | a put with the signed shift stays inside its tables, and is then the put of the map, if and only if the key is indexable |
| Tries.GetIndexedExact | PA4/trie.c:9-41 | a get that stays inside its tables returns the value of the map, and it stays inside them on every trie if and only if the key is indexable |
| Tries.PutLeavesTable | PA4/trie.c:57-63 | a concrete two-character key leaves the table |
| Tries.SearchInsert | PA4/trie.c:9-70 | below a first nibble, an insertion changes the search for exactly one key |
| Tries.GetPut | PA4/trie.c:35-82 | a put changes exactly one key and a get returns the last value put |
| Tries.LevelFromExact | PA4/trie.c:84-104 | the subtree of a second-level node yields exactly the bindings with its prefix |
| Tries.BindingsExact | PA4/trie.c:84-116 | iteration visits every non-null binding exactly once and nothing else, ordered by high nibble, then shorter keys first, then by low nibble |
| TrieHeap.TrieLevel.InsertAt | PA4/trie.c:63-68 | inserting below a given nibble: the part that trie_put and trie_loose_insert share |
| TrieHeap.TrieLevel.Insert | PA4/trie.c:72-82 | the heap trie computes the function on values, adds only fresh nodes, moves no existing node, and touches no pointer when the key is present |
| TrieHeap.TrieLevel.Lookup | PA4/trie.c:35-41 | the heap lookup computes the map's value |
| TrieHeap.TrieNode.LooseInsert | PA4/trie.c:43-70 | the same below a first nibble, the second level indexed by the signed shift |
| TrieHeap.TrieNode.LooseLookup | PA4/trie.c:9-33 | the same for lookup |
| TrieWalks.AtGet | PA4/trie.c:9-41 | the node at a position holds exactly the bindings whose keys continue that position |
| TrieWalks.AtStep | PA4/trie.c:96-102 | the inner loop of the traversal moves from a position to the positions one character further |
| TrieWalks.Iterate | PA4/trie.c:106-116 | the traversal of the heap trie passes the stored values to its callback in the order of the bindings |
| Records.DecimalExact | PA4/pa4str.c:107-113 | a printed number consists of digits that denote it, without a leading zero |
| Records.DecimalOnly | PA4/pa4str.c:107-113 | no other text of digits without a leading zero denotes that number |
| Records.LineExample | PA4/pa4str.c:107-113 | the line of a concrete record |
| Records.NameFieldExact | PA4/pa4str.c:18-36 | how the name field ends, in every case |
| Records.NumberFieldExact | PA4/pa4str.c:41-48 | how a number field ends, in every case: the characters 0x30 to 0x3F count, and the value wraps modulo 2^64 |
| Records.TextFieldExact | PA4/pa4str.c:53-62 | how the owner and host fields end, in every case |
| Records.ParseExact | PA4/pa4str.c:10-100 | the parser accepts exactly the texts that begin with five admissible fields and their delimiters, and returns the record they stand for |
| Records.RoundTrip | PA4/pa4str.c:10-115 | a clean record whose line fits the printer's buffer is read back unchanged, whatever follows on the stream |
| Records.RecordSurvivesExactly | PA4/pa4str.c:106-115 | a printed record comes back if and only if it is clean and its line fits |
| Records.CleanRecordCut | PA4/pa4str.c:107-113 | some record within the parser's limits is cut by the printer and lost |
| Records.EndReads | PA4/pa4str.c:20-28 | the end marker sets the flag and is not a record |
| Records.ParsedClean | PA4/pa4str.c:10-100 | whatever the parser accepts is clean, and it consumes input |
| Records.ParseExtends | PA4/pa4str.c:10-100 | a complete record reads the same whatever comes after it |
| Records.Stream.ReadName | PA4/pa4str.c:18-39 | the loop over the name field, with the newline and length checks |
| Records.Stream.ReadNumber | PA4/pa4str.c:41-50 | the loop over a number field, with 64-bit wrap-around and the code's digit range |
| Records.Stream.ReadText | PA4/pa4str.c:53-65 | the loop over the owner and host fields |
| Records.Stream.ReadFileStatEnd | PA4/pa4str.c:10-100 | the parser over a consumed stream: record or NULL, the end flag, and what is left to read |
| Directory.DeregisterItr | PA4/server.c:52-58 | the callback clears exactly the visited binding if its owner matches, and moves no node |
| Directory.DeregisterNode | PA4/trie.c:84-104 | traversing a subtree while clearing clears exactly the owner's bindings below it and leaves every pointer in place |
| Directory.DeregisterAll | PA4/trie.c:106-116 | the whole traversal clears exactly the owner's bindings |
| Directory.HeldExact | PA4/server.c:137-161 | after any commands a name is bound to a record if and only if some command registered it and nothing later replaced it or deregistered its owner |
| Directory.PostedRegisters | PA4/server.c:138-146 | a posted file is registered if and only if its name is neither `.` nor `..` |
| Directory.Server.NewFile | PA4/server.c:137-147 | a readable record with another name than `.` and `..` is bound to its own name with the peer's address as its host, and no other name changes; in every other case nothing changes; the map stays what the history of commands leaves |
| Directory.Server.Deregister | PA4/server.c:154-161 | DEREGISTER leaves exactly the map restricted to other owners, and the map stays what the history of commands leaves |
| Listing.ReceivedLines | PA4/client_state_machine.c:50-67 | the client recovers the printed records in order, up to the first line that is not a record |
| Listing.PutAllGet | PA4/client_state_machine.c:58-60 | putting records with distinct names gives each its own record and changes no other key |
| Listing.ListTransfersMap | PA4/server.c:148-153 | if every stored record's line fits, then after LIST the client agrees with the server on every server key and is unchanged elsewhere |
| Transfers.PrintEnds | PA4/pa4str.c:106-115 | a complete line leaves exactly one trace of its host, port and newline in the answer, and a cut line none |
| Transfers.ReceivedEnds | PA4/pa4str.c:10-100 | every record received that names an address uses up one such trace |
| Transfers.ListTransfersExactly | PA4/server.c:148-153 | LIST transfers the map to a client that holds none of its records if and only if every stored record's line fits the printer's buffer, and then to any client |
| Listing.List | PA4/server.c:148-153 | the server's answer is the line of every stored record, in traversal order, and the end marker |
| Listing.Client.ListFiles | PA4/client_state_machine.c:50-67 | the do-while puts exactly the records received |
| Listing.Ls | PA4/client_state_machine.c:50-67 | after any commands and a whole `ls` the client has put exactly the records received; if all lines fit, it holds what the server's history of commands leaves, and under any other name what it held before |

## Left out

- Sockets, `select`, threads, timers and logging are replaced by steps and byte sequences; a timeout is
  a step that may occur whenever the writer waits, and a blocked queue operation is a step that becomes
  enabled.
- Mutexes: locked regions are single steps. The one exception is the mutex of the writer's signal, which
  the writer acquires only by waiting and never releases otherwise (`PA2/GBNframework/gbn_write.c:210`);
  POSIX leaves its first wait undefined, and the model lets it wait. `block_queue_push_chunk` and
  `block_queue_peek_chunk` wait once instead of in a loop; with one producer and one consumer per queue
  this is the enabled step.
- Serialisation of link-state packets and of frames: easy round trips.
- `parse_router`, port parsing, opening neighbours and peer downloads.
- The `should_close` flag of link-state packets and closing a router.
- Sequence numbers are followed below 2^32 - 6 in the transport and below 2^32 in the router: the
  comparisons in the code are not modular.
- Windows.DataStepExact: does not model `_m_size` and `_m_tail` of the receive window
  (`PA2/GBNframework/gbn_read.c:144-151`), which decide neither acceptance nor delivery.
- Windows.RetransmitExact: payloads are values, although the code frees a payload after its first
  transmission (`PA2/GBNframework/gbn_write.c:144`).
- Transport.RunExact: one direction of data. The end-of-file handshake and closing are not steps of
  the system; the writer sends its end-of-file frame without waiting for the window to drain, so
  nothing is claimed about completeness at closing.
- Streams.EndToEndPrefix: assumes a run in which the receive head does not wrap in front of buffered
  frames and no read starts inside a block. The second guard is exact for a read
  (`Streams.FirstCopyExact`). The first is exact for the rings and the packets together
  (`Transport.RunTransfers`), but only sufficient for the bytes: some runs that wrap over buffered
  frames still hand up every packet right (`Wraps.NeverStuckExact`).
- Delivery.RunDelivers: speaks of fault-free runs and continuations; what a wrap over buffered frames
  still allows is stated for one round (`Wraps.NeverStuckExact`).
- Wraps.NeverStuckExact: starts where the writer waits, since a retransmission begins there; from any
  other state the writer comes there by itself (`Progress.WriterWaits`). Nothing is claimed about
  rounds after an acknowledgement was misread; a packet can then be lost (`FaultyRuns.LostPacketRun`).
- Flooding.FloodingConverges: neighbour tables do not change after start-up, links are symmetric and
  reliable; packets on one link may overtake each other.
- RouterTables.RouterTable.UpdateRoutingTable: at most 32 router identifiers, all below 255.
- Directory.Server.NewFile: requires a name that is not empty and whose characters after the first are
  7-bit, since the code leaves its tables otherwise (`Tries.PutIndexedExact`), and an address in the
  dotted form that `inet_ntoa` returns; splitting the input into words, and the buffer of 128
  characters for them, are not modelled.
- Directory.DeregisterItr: the record's memory is not freed.
- Listing.Ls: requires that the names received are indexable, since the client's trie leaves its tables
  otherwise; when all lines fit this follows from `Listing.ListTransfersMap`.
- TrieWalks.Iterate: the callback is represented by the values passed to it, since printing leaves the
  trie alone; deregistration is modelled with its callback inside the traversal.
- REGISTER and the client set (`PA4/trie_set.c`): the check and the insertion hold the lock separately
  and promise nothing together; the set is a one-line wrapper of the trie.
- Memory allocation failures and the release of memory.

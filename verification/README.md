# UDS-over-RDMA proxy: a verified model

The system tunnels Unix-socket byte streams over several RDMA queue pairs. This project models its five hardest parts
in Dafny and proves what they promise, over every input and every run.

* **The ordered, windowed stream transport.** A sender thread cuts bytes into frames with consecutive numbers and waits
  at a byte-window gate; frames arrive in any order over any queue pair; the receiver writes the expected frame straight
  to the socket or keeps it in a reorder buffer; cumulative byte grants travel back. `Window` holds the shared sizing
  arithmetic. `Reorder` says what the reorder buffer does, `ReorderTree` and `ReorderRust` are the two buffers as the C
  and Rust code keep them. `Transport` is the step system (sender, posted frames, grants in flight, receiver) with its
  invariant, `TransportSafety` and `TransportRuns` its theorems, `StreamEnds` the two ends as objects updated in place.
* **The chunked frame layout.** `Framing` measures every walk over a buffer's chunks against the one byte string they
  hold; `Chunks` has the loops themselves and the geometry resolver; `FrameLink` carries a frame from one peer's chunks
  to the other's. `Memory` and `LittleEndian` are the copy and the byte codecs.
* **The incremental deframer** of the benchmark, with its echo tracker. `BenchWire` is the header codec, `Deframe` the
  whole-stream parser and what one fed chunk does, `DeframeLaws` the laws, `Deframer` and `DeframerRust` the two
  implementations. `Tracker` is the echo tracker, `TrackerArrays` its slot arrays, `TrackerSession` a session over it.
* **The zero-copy command path.** `Ownership` is the bitmap, `CmdCtx` what each path does to a command context,
  `CmdContext` that context as an object, `CmdProtocol` every interleaving of the paths, `CmdRegion` what every
  application is owed, `CmdExact` exactly what goes wrong when one is too early, `RegWait` the two-reference handshake around a memory registration.
* **Connection-manager accounting.** `Conn` is the step system and its law, `ConnEndpoint` the handlers on the
  endpoint's own table and counters.

## Assumptions

* Socket writes succeed and take every byte; the accepting side's backend socket is there at the first frame (one that
  finds none is dropped before the reorder buffer, kernel/urp_rdma.c:998-1001); peers follow the protocol; no FIN or RST crosses the byte-stream theorems;
  byte windowing was negotiated and both ends resolved the same window.
* Sequence numbers stay below the last 64-bit value, where the cursor deliberately saturates, and byte counters below
  2^64. A payload read from a socket has at least one byte.
* The stall valve is its own step: theorems about the window say which of them hold only while it has not fired.
* The region laws of the command path (`CmdRegion`) hold for every application. Exactly-once completion
  (`CmdProtocol`) asks two things of it: a buffer is not submitted again while a receive completion for it is on its way
  or a send callback is about to read its record, and the pool is not unregistered in the latter case. Waiting for the
  completions is enough (`CmdProtocol.ReapingSuffices`); `CmdExact` says exactly what fails otherwise. io_uring cancels
  only an uncompleted receive that was marked cancelable, and closes the file only after every command completed. A
  receive-queue drain returns when every receive's callback has run.
* A connection id reports ESTABLISHED at most once, never after its teardown event, and nothing once destroyed; each
  handler is atomic. The endpoint's shared resources are set up once, as `urp_endpoint_setup_shared` does.

## Where a promise needs a condition

* The reorder depth covers every frame the window admits exactly when `(depth + 1) * smallest payload > window`
  (`TransportRuns.RefusalExact`), or `(depth + 2) * smallest payload > window` among runs that burn no number
  (`TransportRuns.RefusalExactUnburned`). One-byte frames under a 1 MiB window can be refused.
* The comment at kernel/urp_stream.c:210 says a 1 MiB window gives a depth of 256; the code gives 65536. The model
  follows the code.
* A frame that finds no usable queue pair has already used its sequence number, and the receiver never gets past it
  (`TransportSafety.BurnedNumberBlocks`). Once everything posted has arrived, everything read was written exactly when
  no number was burned (`TransportSafety.DeliveredExact`).
* The acknowledged mark can lead `tx_bytes` exactly between a post and its accounting
  (`TransportRuns.AckedLeadExact`), never at the gate (`TransportSafety.GrantSafety`).
* A sender that has every sent grant is admitted as long as no grant was lost; losing them can shut it out under every
  window until the valve fires (`TransportRuns.LostGrantsStall`).
* The bypass equals an insert exactly when the frame is not the expected one or nothing at or below the cursor waits
  (`Reorder.BypassExact`). A failed allocation inside a drain can break that (`Reorder.BypassDiverges`). A bypass
  strands a frame exactly when the number it delivers is itself pending (`Reorder.BypassStrandsExact`), and a buffer
  with a stranded frame never releases a pending frame again (`Reorder.StrandedForever`).
* Chunk boundaries are invisible to the deframer exactly when its assembly buffer covers the payload limit in force
  (`DeframeLaws.ChunkInvarianceExact`).
* Errors are documented to poison the deframer's stream. After a refused header they do exactly when that header was
  staged (`Deframe.PoisonExact`); one that does not decode and lies wholly in the chunk is forgotten, and the next chunk
  is parsed afresh (`Deframe.ForgottenExact`). A failing callback never poisons it.
* A busy tracker slot means "the original sent `window` ago is still out" exactly when the window divides 2^32
  (`TrackerSession.BackoffExact`).
* The C tracker's signed return is negative for a successful echo exactly when the round trip took 2^63 ns or more
  (`TrackerArrays.SignExact`).
* A buffer submitted again too early admits a second completion exactly when a receive completion for it is on its way
  or a send callback has released it and not yet read its record (`CmdExact.EarlyReuseExact`). Only receives are
  cancelled, so a send completion on its way does no harm.
* An unregister looks only at the ownership bits. It can lose a send for good exactly when some send callback has
  released its buffer and not yet read its record (`CmdExact.EarlyUnregisterExact`, `CmdExact.LostForever`). Completions
  on their way keep finding their records exactly when neither a reuse nor an unregister overtakes one
  (`CmdExact.FoundExact`).
* Registering a pool whose bitmap cannot be allocated asks that missing bitmap whether a buffer is in flight
  (kernel/urp_cmd.c:289); `CmdContext.Context.Register` reports it as its own outcome, exactly for a pool with buffers.
* A registered region is kept or deregistered exactly once unless the post itself fails with one of the two errnos that
  stand for an abandoned wait (`RegWait.EndSettlesExact`).
* `urp_resolve_chunks` is documented as also bounded by the 32-entry ceiling; the code bounds the count only by the
  device's budget. The ceiling holds anyway for slots up to 1 MiB (`Chunks.GeometryFits`).
* A connect request without a queue-pair index displaces a peer exactly when the slot numbered by the held count is
  held, and then another slot is free (`Conn.CounterEvictsExact`, `Conn.CounterEvictionReachable`).
* `connect_failed` is documented as terminal, and is never cleared (`Conn.FailedForever`). It is set with a retry still
  pending exactly when a teardown event repeats a loss whose last retry is scheduled (`Conn.FailsWhilePending`), and such
  an endpoint can come up again (`Conn.FailedCanConnect`).
* `urp_acceptor_slot_decide` documents its occupancy argument as "has a connection id"; its caller passes "is held". The
  model follows the caller.

## Model

| member | source | states |
|---|---|---|
| `Window.HasRoomExact` | kernel/urp_window.h:138-146 | with no counter ahead and nothing wrapping, the gate opens iff nothing is in flight or the frame fits beside what is |
| `Window.ForStreamExact` | kernel/urp_window.h:112-129 | the window is the largest of the configured one, the bandwidth-delay product, eight slots and 64 KiB, but at most 1 GiB and what half the peer's buffers hold |
| `Window.ShouldGrantExact` | kernel/urp_window.h:153-161 | without wrap a grant is due iff a quarter of the window, and at least a byte, was delivered since the last |
| `Window.ApplyGrantExact` | kernel/urp_window.h:168-171 | a grant raises the mark to the larger of the two |
| `Window.DepthExact` | kernel/urp_window.h:176-185 | one reorder entry per 16 bytes of window, at least 256 and at most 65536 |
| `Window.TxMaxPayloadFills` | kernel/urp.h:146-163 | a maximal payload with header and trailer fills the slot |
| `Window.CoupledDepthCovers` | kernel/urp_window.h:176-185 | for payloads of at least max(16, ceil(window / 65536)) the coupled depth plus one frame outgrows the window |
| `Window.ResolveAdmitsTwoSlots` | kernel/urp_window.h:112-129 | with at least two receive buffers the resolved window holds two slots |
| `Window.ResolvedWindowLeavesRoom` | kernel/urp_window.h:112-129 | with at least four buffers and slots up to 1 MiB, one ungranted step and a maximal frame fit the resolved window together |
| `Window.TinyPoolLeavesNoRoom` | kernel/urp_window.h:112-161 | with three buffers of 1 MiB, fewer than the 16 an endpoint is clamped to, they do not |
| `Reorder.DrainNumbers` | kernel/urp_reorder.c:143-176 | a drain releases consecutive numbers from the cursor and leaves the cursor after them, however many allocations succeed |
| `Reorder.DrainConserves` | kernel/urp_reorder.c:143-176 | pending and released frames together are what was pending |
| `Reorder.PlentyDrainIsClean` | kernel/urp_reorder.c:143-176 | with memory, a drain stops only at a gap |
| `Reorder.InsertExact` | kernel/urp_reorder.c:178-214 | each answer of an insert, iff its condition, and only an accepted frame changes the buffer |
| `Reorder.DrainNextExact` | kernel/urp_reorder.c:235-264 | a pop takes the oldest drained frame iff there is one and it fits, with each answer's condition |
| `Reorder.PopsAll` | kernel/urp_reorder.c:235-264 | popping into a large enough buffer takes every drained frame, in order |
| `Reorder.ReorderConservation` | kernel/urp_reorder.c:143-264 | over every run, failed allocations included, each accepted frame is in exactly one of pending, drained and popped, frames leave in consecutive order apart from advanced numbers, and pending fits the cap when allocations succeed |
| `Reorder.BackendsAgree` | crates/uds-rdma-protocol/src/reorder.rs:51-107 | over every call sequence without allocation failure the C and Rust buffers give the same codes, cursor, gap count and deliveries |
| `Reorder.BypassExact` | kernel/urp_reorder.c:216-233 | for one arrival the bypass equals the insert iff the frame is not the expected one or nothing at or below the cursor is pending |
| `Reorder.BypassRefinesInsert` | kernel/urp_rdma.c:1043-1096 | over every arrival order with duplicates and refusals, bypassing and inserting give the same stream, cursor, pending frames and refusals |
| `Reorder.BypassStrandsExact` | kernel/urp_reorder.c:216-233 | a delivery past the buffer leaves a frame below the cursor iff the number it delivered was pending, however many allocations succeed |
| `Reorder.StrandedForever` | kernel/urp_reorder.c:143-264 | with a frame below the cursor no call sequence ever releases a pending frame again |
| `Reorder.BypassDiverges` | kernel/urp_rdma.c:1043-1096 | a run with one failed allocation reaches a buffer where bypass and insert differ and the bypass strands the frame |
| `ReorderTree.LinkInserts` | kernel/urp_reorder.c:111-136 | linking where the lookup fell off keeps the search order and adds exactly that frame |
| `ReorderTree.FirstIsLeast` | kernel/urp_reorder.c:143-176 | the leftmost node holds the least pending number |
| `ReorderTree.EraseFirstRemoves` | kernel/urp_reorder.c:143-176 | erasing it keeps the search order and removes exactly it |
| `ReorderTree.TreeBuffer.constructor` | kernel/urp_reorder.c:63-79 | a new buffer is empty at its initial cursor |
| `ReorderTree.TreeBuffer.Alloc` | kernel/urp_reorder.c:63-79 | allocation fails exactly for a zero cap or without memory |
| `ReorderTree.TreeBuffer.Lookup` | kernel/urp_reorder.c:111-136 | the walk finds a number iff it is pending |
| `ReorderTree.TreeBuffer.MoveFirst` | kernel/urp_reorder.c:147-174 | one turn of the drain queues the least frame iff it is the expected one and memory is there |
| `ReorderTree.TreeBuffer.DrainPrefix` | kernel/urp_reorder.c:143-176 | the loop leaves what `Reorder.Drain` says |
| `ReorderTree.TreeBuffer.LinkNode` | kernel/urp_reorder.c:203-211 | one more pending frame, counted |
| `ReorderTree.TreeBuffer.Insert` | kernel/urp_reorder.c:178-214 | result code and buffer of an insert: duplicate, full, out of memory, or accepted and drained |
| `ReorderTree.TreeBuffer.Advance` | kernel/urp_reorder.c:216-233 | the cursor steps past a frame delivered elsewhere and the contiguous prefix is drained |
| `ReorderTree.TreeBuffer.DrainNext` | kernel/urp_reorder.c:235-264 | the oldest drained frame is popped iff it fits, and its length is reported either way |
| `ReorderTree.TreeBuffer.GapCount` | kernel/urp_reorder.c:143-214 | the pending counter is the number of pending frames |
| `ReorderRust.MapBuffer.DrainLoop` | crates/uds-rdma-protocol/src/reorder.rs:51-87 | the remove-while-present loop delivers what the map-based drain says |
| `ReorderRust.MapBuffer.Insert` | crates/uds-rdma-protocol/src/reorder.rs:51-87 | result and deliveries of the Rust insert |
| `ReorderRust.MapBuffer.Advance` | crates/uds-rdma-protocol/src/reorder.rs:94-107 | deliveries of the Rust advance |
| `Transport.DrainReleases` | kernel/urp_reorder.c:143-176 | a drain of frames taken from the stream releases the stream's next payloads, in order |
| `Transport.ReceiveKeepsRx` | kernel/urp_rdma.c:1043-1096 | every arrival, early, late or repeated, keeps the socket at the payloads below the cursor |
| `Transport.DeliveredWithinPosted` | kernel/urp_rdma.c:700-763 | delivered bytes are posted bytes |
| `Transport.GrantAfter` | kernel/urp_rdma.c:1110-1140 | after a delivery less than one grant step is ungranted |
| `Transport.EmittedExact` | kernel/urp_rdma.c:1119-1140 | a receive emits a grant iff the bytes written since the last one reach a quarter of the window, of all bytes written, and remembers it |
| `Transport.InvStep` | kernel/urp_pump.c:383-562 | every step of sender, wire, receiver and grants keeps the system invariant |
| `Transport.ReachableInv` | kernel/urp_pump.c:383-562 | so every reachable state has it |
| `TransportSafety.SocketIsPrefix` | kernel/urp_rdma.c:1043-1096 | in every reachable state the receiver's socket holds exactly the payloads below its cursor, a prefix of what the sender read |
| `TransportSafety.EverythingDelivered` | kernel/urp_rdma.c:1043-1096 | once every frame arrived, none was refused and memory sufficed, everything read was written |
| `TransportSafety.CreatedByAnyFrame` | kernel/urp_stream.c:309-503 | on the accepting side a stream exists from its first frame on, SYN or not, untouched until then, and is established iff the frame with SYN came to a stream that was there: at all if another frame created it, again if it did itself |
| `TransportSafety.BurnedNumberBlocks` | kernel/urp_pump.c:459-470 | after a number is spent without a post the receiver never passes it, in any continuation |
| `TransportSafety.DeliveredExact` | kernel/urp_pump.c:459-470 | once every posted frame arrived, none refused and memory sufficing, everything read was written iff no number was burned |
| `TransportSafety.AckedMonotone` | kernel/urp_window.h:168-171 | the acknowledged mark never decreases |
| `TransportSafety.GrantSafety` | kernel/urp_pump.c:484-535 | under loss, duplication and reordering of grants the mark never exceeds what was delivered, and at the gate the unsigned subtraction is exact |
| `TransportSafety.InFlightBound` | kernel/urp_pump.c:472-556 | without the valve, posted minus acknowledged is at most the window or one frame |
| `TransportSafety.RefusalNeedsWindow` | kernel/urp_reorder.c:196-197 | a refused frame and the pending ones are undelivered bytes the window would have to exceed |
| `TransportSafety.CoveredDepthNeverRefuses` | kernel/urp_stream.c:197-213 | if the depth covers the window no run refuses a frame |
| `TransportSafety.LastGrantSent` | kernel/urp_rdma.c:1119-1140 | in every reachable state, unless a grant was lost, the receiver's last grant is among those sent, and less than a quarter of the window is ungranted |
| `TransportSafety.LostNeedsDue` | kernel/urp_rdma.c:1133-1139 | a grant counts as lost only when one was due and could not be sent |
| `TransportSafety.LostNeedsLoss` | kernel/urp_rdma.c:1133-1139 | a run that loses none counts none as lost |
| `TransportSafety.RoomyWindowNeverStalls` | kernel/urp_pump.c:484-534 | if a maximal frame fits beside one ungranted step, a sender with everything delivered, no grant lost and every sent grant applied is admitted |
| `TransportSafety.SenderNeverStuck` | kernel/urp_pump.c:459-556 | in every reachable state the sender's next step is there, and a held frame is admitted iff the gate is open |
| `TransportSafety.StopAndValve` | kernel/urp_pump.c:514-550 | a stop ends the loop; after the valve the held frame is posted, gate or not |
| `TransportSafety.StoppedForever` | kernel/urp_pump.c:514-562 | a stopped sender takes, posts and counts nothing more, in any continuation |
| `TransportRuns.UncoveredDepthRefuses` | kernel/urp_reorder.c:196-197 | otherwise a run without valve or allocation failure refuses one |
| `TransportRuns.RefusalExact` | kernel/urp_window.h:176-185 | no run refuses a frame iff depth plus one smallest frames exceed the window |
| `TransportRuns.RefusalExactUnburned` | kernel/urp_window.h:176-185 | no run that burns no number refuses a frame iff depth plus two do |
| `TransportRuns.BurnedReachable` | kernel/urp_pump.c:459-470 | the first number can be burned |
| `TransportRuns.CoupledFramesNeverRefused` | kernel/urp_stream.c:197-213 | payloads of at least max(16, ceil(window / 65536)) bytes are never refused |
| `TransportRuns.TinyFramesCanBeRefused` | kernel/urp_stream.c:203-213 | one-byte payloads under a 1 MiB window can be |
| `TransportRuns.CrampedWindowStalls` | kernel/urp_window.h:153-161 | without that room some run ends quiescent and shut out |
| `TransportRuns.StallExact` | kernel/urp_window.h:138-161 | with one-byte reads possible, such senders are always admitted iff a maximal frame fits beside one ungranted step |
| `TransportRuns.LostGrantsStall` | kernel/urp_pump.c:484-534 | under every window some run with lost grants ends with everything delivered and the sender shut out |
| `TransportRuns.ResolvedWindowNeverStalls` | kernel/urp_window.h:112-161 | every window resolved with at least four buffers has that property |
| `TransportRuns.AckedCanLeadSent` | kernel/urp_pump.c:544-556 | under every window some run lets the mark lead tx_bytes between post and accounting |
| `TransportRuns.AckedLeadExact` | kernel/urp_pump.c:484-556 | a reachable state has the mark ahead at a point of the sender's loop iff that point is between post and accounting |
| `StreamEnds.TxStream.Take` | kernel/urp_pump.c:459-461 | a read payload takes the next number, keeping the sender's invariant |
| `StreamEnds.TxStream.WaitAtGate` | kernel/urp_pump.c:472-535 | the wait loop ends admitted at the first look that shows room, the one before any wait included, stopped, or by the valve when its budget is spent |
| `StreamEnds.TxStream.Post` | kernel/urp_pump.c:544-550 | the held payload goes on the wire under its own number, after all others, and the wire is ahead of tx_bytes by exactly it |
| `StreamEnds.TxStream.Account` | kernel/urp_pump.c:552-556 | tx_bytes is again what is on the wire |
| `StreamEnds.TxStream.Apply` | kernel/urp_rdma.c:903-919 | the acknowledged mark becomes the larger of itself and the grant |
| `StreamEnds.RxStream.constructor` | kernel/urp_stream.c:163-231 | a stream's receive half starts empty with the depth coupled to its window |
| `StreamEnds.RxStream.DrainToSocket` | kernel/urp_rdma.c:784-815 | the pop loop writes every drained frame in order and counts its bytes |
| `StreamEnds.RxStream.Bypass` | kernel/urp_rdma.c:1046-1072 | the expected frame is written first, then what became contiguous |
| `StreamEnds.RxStream.Slow` | kernel/urp_rdma.c:1073-1096 | any other frame is inserted and whatever is in order written |
| `StreamEnds.RxStream.DecideGrant` | kernel/urp_rdma.c:1119-1140 | a grant of all bytes written iff those since the last one reach a quarter of the window |
| `StreamEnds.RxStream.RecvDone` | kernel/urp_rdma.c:1043-1140 | one completion does what `Transport.Receive` says and emits its grant, iff that quarter is reached |
| `Framing.GatherIsSlice` | kernel/urp_frame.h:222-237 | a gather reads a stretch of the frame's byte string |
| `Framing.ScatterIsPatch` | kernel/urp_frame.h:205-220 | a scatter overwrites a stretch of it and nothing else |
| `Framing.ScatterClips` | kernel/urp_frame.h:205-220 | bytes beyond the capacity are not copied |
| `Framing.GatherClips` | kernel/urp_frame.h:222-237 | a gather returns as many bytes as are asked for or fit |
| `Framing.RecvLensSum` | kernel/urp_srq.c:37-43 | receive entries add up to the slot, or to all chunks if those are fewer bytes |
| `Framing.WireIsPrefix` | kernel/urp_pump.c:117-145 | the send entries name the first bytes of the frame |
| `Framing.SendLensFull` | kernel/urp_pump.c:131-138 | no send entry is empty and all but the last are full |
| `Framing.LandIsPatch` | kernel/urp_srq.c:23-51 | a message no longer than the slot lands at the front of the frame, unchanged |
| `Framing.KvecsInRows` | kernel/urp_pump.c:165-184 | at most one entry per chunk, each inside its chunk, at least one for a non-empty payload |
| `Framing.KvecsFull` | kernel/urp_pump.c:165-184 | no entry of the list is empty |
| `Framing.KvecsNameGather` | kernel/urp_pump.c:165-184 | the kvec list names exactly the bytes a gather would copy |
| `FrameLink.EncodeLayout` | kernel/urp_frame.h:27-50 | every header field stands little-endian at its offset |
| `FrameLink.DecodeEncode` | kernel/urp_frame.h:37-70 | the field decoders undo the encoder, whatever follows |
| `FrameLink.EncodeDecode` | kernel/urp_frame.h:37-70 | and the encoder undoes the decoders |
| `FrameLink.StoreIsScatter` | kernel/urp_pump.c:431-434 | reading a socket into the transmit list is scattering |
| `FrameLink.SentBytes` | kernel/urp_pump.c:117-145 | what is posted is exactly header and payload |
| `FrameLink.LandedBytes` | kernel/urp_rdma.c:738-750 | a landed frame reads back as its header and payload by the gather, by the bypass's list, and from chunk 0 when it fits there |
| `FrameLink.FrameTransfer` | kernel/urp_frame.h:205-237 | for any slot sizes, chunk sizes and counts at the two peers, a payload that fits both slots arrives unchanged, read by the gather or named by the bypass's list |
| `FrameLink.ResolvedTransfer` | kernel/urp.h:174-199 | in particular between any two resolved geometries, within both entry budgets |
| `Chunks.Order` | kernel/urp.h:184-186 | the least power of two pages that covers a size |
| `Chunks.ChunkDoubles` | kernel/urp.h:186-187 | each order doubles the chunk; four from a 4 KiB page make 64 KiB |
| `Chunks.GeometryLeast` | kernel/urp.h:174-199 | the resolved order is the least whose chunk holds the slot or 64 KiB and whose count meets the budget |
| `Chunks.ResolveChunks` | kernel/urp.h:174-199 | the loop ends with chunks that cover the slot and none to spare, within the budget, of that least order |
| `Chunks.GeometryFits` | kernel/urp.h:105-125 | slots up to 1 MiB take at most 16 chunks, and one up to 64 KiB |
| `Chunks.ScatterPayload` | kernel/urp_frame.h:205-220 | the loop over separate chunks leaves the scatter and returns how much fitted |
| `Chunks.GatherPayload` | kernel/urp_frame.h:222-237 | the loop copies out the gather, leaves the rest of the destination alone and returns how much it copied |
| `Chunks.FillKvecs` | kernel/urp_pump.c:165-184 | the loop builds the kvec list |
| `Chunks.SendEntries` | kernel/urp_pump.c:131-138 | the loop writes the send lengths into the entry array and says how many it used |
| `Chunks.RecvEntries` | kernel/urp_srq.c:36-43 | the loop writes the receive lengths, adding up to exactly the slot when the chunks cover it |
| `BenchWire.EncodeLayout` | tools/urp-bench-core.c:59-68 | every header field stands little-endian at its offset |
| `BenchWire.FieldsEncode` | tools/urp-bench-core.c:59-97 | every header is recovered from its bytes |
| `BenchWire.EncodeFields` | tools/urp-bench-core.c:59-97 | and the bytes from the fields |
| `BenchWire.DecodeExact` | tools/urp-bench-core.c:70-97 | decoding succeeds with a header iff the bytes begin with its encoding and it is valid and within the cap |
| `BenchWire.DecodeRefusals` | tools/urp-bench-core.c:70-97 | each refusal, iff its condition on the bytes, in the order of the tests |
| `Deframe.ParseConcat` | tools/urp-bench-core.c:171-256 | more bytes never change what was already parsed |
| `Deframe.RunIsParse` | tools/urp-bench-core.c:171-256 | with a covering assembly buffer every cutting parses like the whole stream |
| `Deframe.KeptMeans` | tools/urp-bench-core.c:187-237 | a feed leaves staged its leftover, or after an error nothing or the refused header |
| `Deframe.PoisonExact` | crates/urp-bench/src/deframe.rs:48-50 | after an error every later chunk fails the same way and delivers nothing iff the refused header is still staged |
| `Deframe.ForgottenExact` | tools/urp-bench-core.c:187-195 | it is not iff it does not decode and no byte of it was staged before the chunk |
| `DeframeLaws.ChunkInvariance` | tools/urp-bench-core.c:171-256 | any two cuttings of a stream give the same messages, order, first error and leftover |
| `DeframeLaws.SmallBufferShows` | tools/urp-bench-core.c:227-228 | with a smaller assembly buffer some stream tells one cutting from another |
| `DeframeLaws.ChunkInvarianceExact` | tools/urp-bench-core.c:171-256 | cutting is invisible iff the assembly buffer covers the payload limit in force |
| `DeframeLaws.RoundTrip` | tools/urp-bench-core.c:59-97 | any valid messages, printed, cut anywhere and fed, come back |
| `DeframeLaws.DeliveredIsPrinted` | tools/urp-bench-core.c:156-256 | whatever is delivered is valid and, printed with the leftover, spells the stream |
| `DeframeLaws.ReassembledCount` | tools/urp-bench-core.c:156-169 | msgs_reassembled is the number of delivered messages that a chunk boundary cuts |
| `Deframer.CDeframer.constructor` | tools/urp-bench-core.c:146-154 | a new deframer has nothing staged and zero counters |
| `Deframer.CDeframer.Deliver` | tools/urp-bench-core.c:156-169 | a delivery is counted and the deframer waits for a header, whatever the callback answers |
| `Deframer.CDeframer.TakeWhole` | tools/urp-bench-core.c:187-207 | the fast path delivers a message that lies wholly in the chunk, or leaves everything alone |
| `Deframer.CDeframer.TakeHeader` | tools/urp-bench-core.c:209-237 | the slow path stages header bytes, and refuses, delivers or waits once it has all 24 |
| `Deframer.CDeframer.StagePayload` | tools/urp-bench-core.c:238-253 | payload bytes are staged and the message delivered once complete |
| `Deframer.CDeframer.FeedChunk` | tools/urp-bench-core.c:171-256 | from any state, one left by an error included, a feed delivers, fails and leaves staged what `Deframe.Feed` and `Deframe.Kept` say and counts totals and spanning messages; a failing callback ends it after its own message with nothing staged; an empty chunk changes nothing |
| `Deframer.CDeframer.FeedAll` | tools/urp-bench.c:1107-1130 | feeding chunk after chunk until one fails delivers, fails and counts what `Deframe.Run` says |
| `Deframer.CDeframer.FeedStream` | tools/urp-bench-core.c:156-256 | with a covering assembly buffer that is the parse of the whole stream, however it is cut, and msgs_reassembled grows by the messages a cut divides |
| `DeframerRust.RustDeframer.DeliverInPlace` | crates/urp-bench/src/deframe.rs:63-73 | a message that lies wholly in the chunk is delivered, any other left alone |
| `DeframerRust.RustDeframer.TakeWhole` | crates/urp-bench/src/deframe.rs:60-77 | the Rust fast path, refusing a bad header |
| `DeframerRust.RustDeframer.TakeHeader` | crates/urp-bench/src/deframe.rs:78-102 | the Rust slow path, where an empty message is delivered without leaving the header state |
| `DeframerRust.RustDeframer.StagePayload` | crates/urp-bench/src/deframe.rs:103-121 | the Rust payload state |
| `DeframerRust.RustDeframer.FeedChunk` | crates/urp-bench/src/deframe.rs:51-125 | the Rust feed meets the C feed's contract, errors and failing callbacks included |
| `DeframerRust.RustDeframer.FeedAll` | crates/urp-bench/src/main.rs:195-228 | and so over a list of chunks |
| `DeframerRust.RustDeframer.FeedStream` | crates/urp-bench/src/deframe.rs:51-125 | and over a whole stream, however it is cut |
| `Tracker.SentMeans` | tools/urp-bench-core.c:273-285 | a send is accepted iff no outstanding number shares its slot, and then adds exactly its number |
| `Tracker.EchoMeans` | tools/urp-bench-core.c:287-310 | an echo succeeds iff its number is outstanding, removes exactly it, and measures the clamped time since its send; each failure has its own counter and changes no slot |
| `Tracker.CountWithinWindow` | tools/urp-bench-core.c:260-285 | no more numbers are outstanding than there are slots |
| `Tracker.TrackerRuns` | crates/urp-bench/src/tracker.rs:31-63 | over every run the count is the number outstanding, within the window, a number's sends exceed its successful echoes by whether it is outstanding, and the two failure counters are the numbers of such failures |
| `Tracker.DupExact` | tools/urp-bench-core.c:292-300 | a failed echo is a duplicate iff its number was the last accepted into its slot with a nonzero send time |
| `TrackerArrays.Arrays.constructor` | tools/urp-bench-core.c:260-271 | the arrays start empty |
| `TrackerArrays.Arrays.Sent` | tools/urp-bench-core.c:273-285 | the slot arrays follow the send |
| `TrackerArrays.Arrays.Echo` | crates/urp-bench/src/tracker.rs:45-63 | the slot arrays follow the echo, with its result |
| `TrackerArrays.SignExact` | tools/urp-bench-core.c:287-310 | the signed return tells success from failure iff the round trip took less than 2^63 ns |
| `TrackerSession.BatchPlan` | tools/urp-bench-core.c:314-323 | the plan fits the free window and the remainder, and uses one of them up |
| `TrackerSession.SessionRecent` | tools/urp-bench.c:461-477 | if the window divides 2^32, everything outstanding is among the last `window` originals |
| `TrackerSession.BackoffMeans` | tools/urp-bench.c:461-477 | then the sender backs off iff the original sent `window` ago is still out |
| `TrackerSession.WrapCollides` | tools/urp-bench-core.c:273-285 | otherwise a session in send order meets a younger original at the wrap |
| `TrackerSession.BackoffExact` | tools/urp-bench.c:461-477 | the back-off means what its comment says iff the window divides 2^32 |
| `Ownership.NonZero` | kernel/urp_cmd_own.h:99-107 | a word is nonzero iff one of its bits is set |
| `Ownership.Bitmap.constructor` | kernel/urp_cmd_own.h:30-33 | a new bitmap owns nothing |
| `Ownership.Bitmap.Claim` | kernel/urp_cmd_own.h:40-54 | out of range, busy, or exactly that buffer joins the owned set |
| `Ownership.Bitmap.Release` | kernel/urp_cmd_own.h:62-76 | out of range, not owned, or exactly that buffer leaves it |
| `Ownership.Bitmap.IsKernel` | kernel/urp_cmd_own.h:86-91 | true iff the buffer is owned |
| `Ownership.Bitmap.AnyKernel` | kernel/urp_cmd_own.h:99-107 | true iff any buffer is owned, because unused bits stay clear |
| `CmdContext.Context.Register` | kernel/urp_cmd.c:617-657 | a registered pool starts with every buffer at the application; a second one is refused; without memory nothing stays registered, except that a missing bitmap of a nonempty pool is read |
| `CmdContext.Context.Claim` | kernel/urp_cmd.c:857-881 | a submission claims its buffer iff the pool is registered, the index in range and the buffer free, with its own error for each |
| `CmdContext.Context.RecvPostFailed` | kernel/urp_cmd.c:1100-1126 | a failed receive post gives the buffer back and returns whoever the record still names |
| `CmdContext.Context.Done` | kernel/urp_cmd.c:1026-1032 | a completion gives the buffer back and returns whoever the record still names |
| `CmdContext.Context.Cancel` | kernel/urp_cmd.c:1154-1170 | a cancel takes the completion over iff the buffer is still owned |
| `CmdContext.Context.Unregister` | kernel/urp_cmd.c:660-689 | the pool is released iff it is registered and no buffer is owned, whatever completions are on their way |
| `CmdProtocol.SubmitKeeps` | kernel/urp_cmd.c:1069-1083 | a submission, turned away or of a buffer with no receive completion on its way and no record still to be read, keeps the invariant of exactly-once completion |
| `CmdProtocol.RecvPostFails` | kernel/urp_cmd.c:1100-1126 | so does a failed receive post racing a cancel |
| `CmdProtocol.SendPostFails` | kernel/urp_cmd.c:915-931 | so does a failed send post |
| `CmdProtocol.CallbackKeeps` | kernel/urp_cmd.c:812-1033 | so does a completion callback, whatever a cancel did before it |
| `CmdProtocol.CollectKeeps` | kernel/urp_cmd.c:812-830 | so does a send callback's later read of its record, after the buffer was released |
| `CmdProtocol.CloseKeeps` | kernel/urp_cmd.c:278-331 | so does a close, as a test of the bits and then a drain |
| `CmdProtocol.CancelKeeps` | kernel/urp_cmd.c:1154-1170 | so does a cancel at any point after the receive was marked |
| `CmdProtocol.ReachableInv` | kernel/urp_cmd.c:812-1170 | with an application that is never too early, every reachable state has each accepted command in exactly one place: held, on its way, or completed once |
| `CmdProtocol.CompletedOnce` | kernel/urp_cmd.c:812-1170 | every accepted SEND or RECV completes at most once, and exactly once when neither its submission nor a work request, send callback or task work of its own is in progress, whoever has its buffer now |
| `CmdProtocol.ReapingSuffices` | kernel/urp_cmd.c:1069-1090 | an application that waits for the completions before it reuses a buffer or unregisters does all that is asked of it |
| `CmdRegion.KernelStep` | kernel/urp_cmd.c:256-1170 | every step, with any application, keeps ownership equal to what is submitted or on the adapter, and sends completed or yet to be completed within the sends accepted |
| `CmdRegion.ArmedIsOwned` | kernel/urp_cmd.c:876-931 | with any application, a posted work request has its bit set and its pool registered, and nothing else is owned between submissions |
| `CmdRegion.RegionOutlivesWork` | kernel/urp_cmd.c:256-331 | with any application, no unregister and no close releases the region under a work request, and a close leaves no send callback or send completion behind |
| `CmdRegion.SendsNeverOverpaid` | kernel/urp_cmd.c:812-931 | with any application, sends are completed at most as often as they are accepted |
| `CmdRegion.CloseLeavesNothing` | kernel/urp_cmd.c:269-292 | if the application waits for its completions, a close leaves nothing on its way at all |
| `CmdRegion.DrainCanFinish` | kernel/urp_cmd.c:256-267 | from every state of a close, flushing what is armed leads to the end of its drain |
| `CmdRegion.CloseCompletes` | kernel/urp_cmd.c:269-331 | with any application, a close can always complete, and then the pool is gone |
| `CmdExact.EarlyReuseExact` | kernel/urp_cmd.c:812-830 | an accepted submission leaves a way to complete some command twice iff a receive completion for its buffer is on its way or a send callback has still to read its record |
| `CmdExact.EarlyUnregisterExact` | kernel/urp_cmd.c:660-689 | a successful unregister leaves a way to lose a send iff some send callback has still to read its record |
| `CmdExact.LostForever` | kernel/urp_cmd.c:812-830 | a lost send is never completed, in any continuation with any application |
| `CmdExact.FoundExact` | kernel/urp_cmd.c:195-231 | throughout a run every completion on its way finds its own record iff no reuse and no unregister overtakes one |
| `CmdExact.CarefulNeverFaults` | kernel/urp_cmd.c:195-231 | in such a run nothing reads a record that is gone or another command's |
| `CmdExact.FaultExact` | kernel/urp_cmd.c:195-231 | a fault is remembered iff a step read a record that was gone or another command's |
| `CmdExact.FaultStays` | kernel/urp_cmd.c:195-231 | in every continuation |
| `CmdExact.CollectMeans` | kernel/urp_cmd.c:812-830 | a send callback reads its record once and hands over whatever command it then names |
| `CmdExact.TaskReadsItsOwn` | kernel/urp_cmd.c:195-231 | in such a run task work reads its own command's record, once |
| `CmdExact.TooEarly` | kernel/urp_cmd.c:660-1170 | reachable states in which a reuse can complete a command twice, an unregister takes a receive's record away so that its task work faults, and an unregister loses a send |
| `CmdExact.CloseWithArmedReceive` | kernel/urp_cmd.c:278-292 | a reachable close with a cancelled receive still armed, which has to wait for its drain |
| `RegWait.StepKeeps` | kernel/urp_cmd.c:364-444 | every step of the waiting thread, the callback and the caller keeps references, frees and deregistrations in agreement |
| `RegWait.NeverTwice` | kernel/urp_cmd.c:364-444 | the record is freed at most once and only when both parties let go; the region is never both kept and deregistered, nor touched while its work request is in flight |
| `RegWait.EndFrees` | kernel/urp_cmd.c:364-444 | at the end the record is freed, and the region kept iff the return value is 0 |
| `RegWait.ReturnExact` | kernel/urp_cmd.c:395-444 | what is returned: ENOMEM, the post's errno, 0 or EIO by the adapter's answer if the signal came, else ETIMEDOUT or ERESTARTSYS |
| `RegWait.KeptExact` | kernel/urp_cmd.c:376-444 | the region is kept iff the wait was signalled and the adapter had accepted the registration |
| `RegWait.OrdinaryRun` | kernel/urp_cmd.c:395-436 | the ordinary run ends kept, or deregistered if the adapter refused |
| `RegWait.AbandonedRun` | kernel/urp_cmd.c:438-444 | a run given up with the work request in flight: the record outlives it and deregisters the region |
| `RegWait.NoMemoryRun` | kernel/urp_cmd.c:402-404 | a run without memory for the record: nothing is posted and the caller deregisters the region |
| `RegWait.EndSettlesExact` | kernel/urp_cmd.c:520-541 | at the end the region was kept or deregistered exactly once iff the post did not fail with ETIMEDOUT or ERESTARTSYS |
| `RegWait.PostErrnoLeaks` | kernel/urp_cmd.c:520-541 | such a post failure leaves the region with nobody |
| `Conn.EstablishedKeeps` | kernel/urp_rdma.c:1525-1621 | an ESTABLISHED event keeps the accounting invariant |
| `Conn.TeardownKeeps` | kernel/urp_rdma.c:1623-1735 | so does every teardown event, half-open or repeated |
| `Conn.SilentDropKeeps` | kernel/urp_rdma.c:1793-1828 | so does a silent drop |
| `Conn.RetryKeeps` | kernel/urp_rdma.c:1923-1964 | so does the retry work, whether or not the dial starts |
| `Conn.DialKeeps` | kernel/urp_rdma.c:1889-1907 | so does the first dial |
| `Conn.FirstDialMeans` | kernel/urp_rdma.c:1889-1907 | a first dial that cannot start leaves its retry pending, at no cost |
| `Conn.RetryMeans` | kernel/urp_rdma.c:1923-1964 | what the retry work leaves: down, no retry pending unless a dial that could not start schedules one, a new connection id iff it started |
| `Conn.RequestKeeps` | kernel/urp_rdma.c:1231-1465 | so does a connect request, wherever its setup fails |
| `Conn.FailedRequestFreesSlot` | kernel/urp_rdma.c:1323-1465 | a request whose setup fails leaves its slot free without a connection id and every other alone |
| `Conn.Accounting` | kernel/urp_rdma.c:1270-1735 | after every run qps_connected is the number established, qps_accepted the number held and at most num_qps, and connected holds iff all are established |
| `Conn.PeerKeepsItsSlot` | kernel/urp_conn_plan.h:107-118 | a request that names its queue pair always lands in that slot and changes no other |
| `Conn.CounterEvictsExact` | kernel/urp_rdma.c:1270-1323 | a request that names none takes the slot numbered by the held count, displacing a peer iff that slot is held, and then another is free |
| `Conn.CounterEvictionReachable` | kernel/urp_rdma.c:1270-1323 | a run in which it takes an established queue pair down beside a free one |
| `Conn.SingleIgnoresIndex` | kernel/urp_rdma.c:1273-1277 | with a single queue pair the index a request carries is ignored |
| `Conn.HardTeardownExact` | kernel/urp_rdma.c:1209-1219 | a hard teardown keeps the count right iff the queue pair is not established |
| `Conn.BudgetRenewed` | kernel/urp_rdma.c:1684-1727 | every establish renews the retry budget; each report of the next loss and each dial that cannot start spends one, the endpoint fails iff they exceed it, and a retry is then still pending iff the reports alone did |
| `Conn.AttemptsStep` | kernel/urp_rdma.c:1561-1964 | an attempt is spent exactly by scheduling a retry, and only an establish gives them back |
| `Conn.AttemptsRun` | kernel/urp_rdma.c:1684-1964 | over every run without an establish of it, a queue pair's attempts are what the budget allows of the retries due |
| `Conn.FailedRunExact` | kernel/urp_rdma.c:1684-1964 | over every run the endpoint is failed iff the retries due to some queue pair exceed the budget of its last establish |
| `Conn.FailedFromStart` | kernel/urp_rdma.c:1684-1964 | in particular from a new endpoint, where every budget is whole |
| `Conn.OverspendsCounts` | kernel/urp_rdma.c:1684-1964 | which without an establish is a count |
| `Conn.RedialsSpend` | kernel/urp_rdma.c:1936-1941 | against a peer that rejects every dial the endpoint fails iff the rounds exceed what is left, and then no retry is pending |
| `Conn.FailsExact` | kernel/urp_rdma.c:1684-1732 | a step fails the endpoint iff it would schedule a retry of a queue pair whose budget is spent |
| `Conn.FailsWhilePending` | kernel/urp_rdma.c:1714-1732 | it does so with that retry still pending iff it is a teardown event that finds it pending |
| `Conn.FailedForever` | kernel/urp_rdma.c:1722-1730 | the failure flag is never cleared |
| `Conn.FailedCanConnect` | kernel/urp_rdma.c:1714-1732 | for every budget a run ends failed and connected |
| `ConnEndpoint.Endpoint.Bind` | kernel/urp_rdma.c:1321-1464 | claiming a slot and setting the child up, with the claim returned on failure |
| `ConnEndpoint.Endpoint.AcceptOne` | kernel/urp_rdma.c:1231-1323 | the slot decision and the reuse accounting keep the counters true to the table, a rejected or unauthorised request changes nothing |
| `ConnEndpoint.Endpoint.OnEstablished` | kernel/urp_rdma.c:1525-1621 | that queue pair alone changes, is established with a new budget, and counters and latch stay true to the table |
| `ConnEndpoint.Endpoint.OnTeardown` | kernel/urp_rdma.c:1623-1735 | that queue pair alone changes, is down and not held, an initiator retries or fails, and counters and latch stay true to the table |
| `ConnEndpoint.Endpoint.OnSilentDrop` | kernel/urp_rdma.c:1793-1828 | the same for a drop nobody reports: one fewer is up, the latch is open, and a retry or the failure follows |
| `ConnEndpoint.Endpoint.RetryWork` | kernel/urp_rdma.c:1923-1964 | hard teardown and a new dial keep the counters true to the table; a dial that starts leaves the budget alone, one that cannot is retried or ends in failure |

## Left out

- RDMA verbs, DMA mapping, page pools, kernel threads, sockets, RCU and hash tables: foreign calls, present only as steps or assumptions.
- Red-black rebalancing: the tree is an ordered search tree without it, which no contract can tell apart.
- Frame credits (kernel/urp_credit.c): a best-effort consume that never blocks.
- Stream transition table, negotiation and lazy-connect predicates, the frame classifier, probe codecs, backoff delays and histograms: finite tables or single branches.
- Command validators, netlink, procfs, sysctl, module start, the command line, control shell and report formatting: plumbing.
- FIN ordering against undelivered data, unequal windows at the two ends, and progress after a failed allocation: not promised by the code.
- The timestamp trailer, authentication payloads and the payload a probe carries: no effect on the laws proved here.
- 64-bit message and tracker counters: unbounded here.
- An initiator whose queue pair cannot be created when its route resolves: no accounting changes, and the connection id is then the connection manager's to destroy.
- The wait record and the registered region as allocated objects: the handshake is modelled on values, by counting frees and deregistrations.
- TransportSafety.CreatedByAnyFrame: does not cover the initiating side, whose stream exists in SYN_SENT before any frame arrives.
- Deframer.CDeframer.FeedAll: starts from a deframer without a refused header, as the receive loop does; `FeedChunk` covers the other.
- DeframerRust.RustDeframer.FeedAll: likewise.
- TrackerArrays.Arrays.Echo: models the bookkeeping that the C and Rust trackers share; the C return value is `TrackerArrays.CReturn` of its result.
- CmdProtocol.SubmitKeeps: asks that no receive completion for the buffer is on its way and no send callback has still to read its record, because the invariant fails without; `CmdExact.EarlyReuseExact` covers every submission.
- CmdProtocol.ReachableInv: ranges over runs that ask the same and that no unregister precedes a send callback's read; `CmdExact.EarlyUnregisterExact` covers every unregister.
- CmdContext.Context.Register: does not model pinning and mapping the pool, which come first and release what they took when they fail.
- CmdContext.Context.Done: does not model decoding the received header or answering a probe, which only choose the result code.

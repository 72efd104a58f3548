# Verified model of the flow agent and its control store

An agent on each node reads packet headers, counts packets and bytes per flow
and time bucket, and puts closed buckets into a bounded spool as numbered
batches. An uploader sends spooled batches to a control store, which prunes old
batches, recognises repeats, and answers queries by grouped sums. This project
models that path and proves what it promises: no batch disappears without a
trace, a repeated delivery counts once, the parser reads back what an encoder
wrote, and the answer of a query is the packets that were captured.

`dafny verify dfyconfig.toml` checks everything.

## How it is modelled

| files | part |
|---|---|
| `Model`, `Orders`, `Flows`, `Counts` | data model, batch ids, the derived key order, grouped sums, packets and bytes counted one by one |
| `Packet`, `PacketBounds`, `PacketRoundTrip`, `PacketOutcomes` | header parser, how many bytes decide it, its inverse, the outcome of every frame |
| `Aggregate`, `Capture` | time-bucketed counters and the capture loop |
| `SpoolSpec`, `SpoolProofs`, `SpoolEnqueue`, `Spool` | the spool as tables, what its operations keep, what an enqueue means, and the mutable object |
| `ControlSpec`, `Queries`, `Control` | the control store as tables, its queries, and the mutable object |
| `Protocol`, `Upload` | every interleaving of agent, network and store; the upload loop |
| `EndToEnd`, `Pipeline` | packets to answers; capture, upload and query joined in one program |

- A SQLite table is a map or a sequence in key order. A transaction works on
  local copies and a commit assigns the fields, so an error leaves the state as
  it was. An engine that refuses a statement is a Boolean input, for any call.
- Values bound to SQLite integers are checked with `Fits` where the program
  converts them; a value that does not fit is an error and rolls back.
- The digest of a body and the serialised size of an envelope are a `Codec`:
  two arbitrary functions. Nothing is assumed of them, not even that digests of
  different bodies differ.
- Clocks, network faults, driver counters and frames are inputs. The network of
  the upload loop is a function from request number to what happens to it.
- Two histories are kept beside the spool that the program does not store: every
  envelope a committed enqueue made, and the numbers deleted by acknowledgements.
- The aggregator's ordered map is the sequence of its entries in key order. The
  derived comparison of keys is the lexicographic order of their fields written
  as columns of numbers; `Orders` proves this equal to the order field by field,
  total, transitive and exact on equality.
- The eviction loop, the uploader, the capture loop and the parser's two loops
  are loops here too, each proved equal to a function about which the lemmas
  speak.

## What the proofs found

- A batch id does not tell where the node id ends. Of two batches whose node and
  boot ids join to the same text, the ids are equal exactly when the digest
  prefixes are (`Model.BatchIdForgetsNodeBoundary`). The sequence number can
  always be read back, which is what one spool needs.
- An oversized batch is recorded as lost without enforcing the age limit, so
  batches already too old stay pending (`SpoolProofs.OversizedSkipsAgeLimit`
  gives the exact condition, `Protocol.ExpiredMayStayPending` a run).
- A retry that finds no room, or a clock the store cannot represent, does not
  absorb the first attempt unless that attempt changes nothing
  (`ControlSpec.RefusedRetry` gives the exact condition on the inputs,
  `ControlSpec.RefusedRetryDiffers` a case). Every other retry does
  (`ControlSpec.RetryAbsorption`).
- A batch may be recorded as a gap although the store committed it, when it is
  evicted while its answer is on the way (`Protocol.GapMayBeCommitted`).
- A batch with a counter the store cannot represent is refused each time, stops
  every upload run at that batch and can leave the spool only as a gap
  (`Protocol.OutOfRangeIsRefused`, `Protocol.OutOfRangeOnlyBecomesAGap`,
  `Upload.UploadOnce`).
- After a later IPv6 fragment the parser keeps walking, so payload bytes are read
  as headers exactly when the fragment announces an extension header and is not
  the eighth header (`PacketRoundTrip.LaterFragmentPayload`).
- The capture loop clears its count of parse failures before the enqueue that
  reports them; if the spool refuses the batch, they are lost with it
  (`Capture.Run`).
- The reported driver counters add up to the driver's own count exactly when it
  never went back; otherwise they add up to more (`Capture.ReportsAddUp`).

## Model

| member | source | states |
|---|---|---|
| `Protocol.NoSilentLoss` | src/spool.rs:74-160 | After any interleaving of enqueues, evictions, snapshots, sends, lost and repeated requests, ingests with pruning, lost answers and acknowledgements, every number below `next_seq` is pending, a gap or acknowledged, exactly one of them; and at some point of the run the store held each acknowledged envelope, its batch row and exactly its bucket rows |
| `Protocol.CommittedWasStored` | src/control.rs:100-183 | Along every run, each envelope that counts as committed was in the store, whole, at some point of the run |
| `Protocol.AnsweredIsStored` | src/control.rs:113-183 | A positive answer, duplicate or not, means that the store now holds the very envelope with its rows; a duplicate answer means that it had been inserted before |
| `Protocol.OutOfRangeIsRefused` | src/sqlite.rs:6-8 | A spooled batch with a value the store cannot represent is refused at every delivery |
| `Protocol.OutOfRangeOnlyBecomesAGap` | src/upload.rs:10-25 | Along every run and every continuation of it, such a batch is pending or a gap and never acknowledged |
| `Protocol.NothingExpires` | src/control.rs:326-343 | While the store's clock leaves every spooled batch in age, what was committed stays in the store |
| `Protocol.LedgerBalances` | src/spool.rs:74-180 | Along every such run, bytes enqueued = bytes pending + bytes in gaps + bytes acknowledged, the pending bytes are within budget, and each gap has the exact bucket range, size and reason of its batch |
| `Protocol.NeverConflict` | src/control.rs:113-141 | Along every run, neither a request in flight nor a pending batch can be answered with a conflict |
| `Protocol.PendingIsAccepted` | src/control.rs:100-183 | In every reachable world a batch of the spool is accepted unless the store lacks space or a value is out of range |
| `Protocol.OneSpoolIsHonest` | src/model.rs:101-107 | Envelopes of one spool that share an id, or node, boot and number, are the same envelope |
| `Protocol.AcknowledgeKeepsGood` | src/upload.rs:10-25 | Although only an id comes back, the acknowledged envelope is one the store inserted, also when eviction or another uploader came between snapshot and acknowledgement |
| `Protocol.DeliverKeepsGood` | src/control.rs:100-183 | A delivery, repeated or not, keeps every stored batch one that was inserted, in range, whole and traceable to the spool |
| `Protocol.EnqueueKeepsGood` | src/spool.rs:74-137 | An enqueue with evictions between any two steps of an uploader keeps the protocol invariant |
| `Protocol.StepKeepsGood` | src/upload.rs:10-25 | Every step keeps the protocol invariant |
| `Protocol.RunKeepsGood` | src/upload.rs:10-25 | So does every sequence of steps from a good world |
| `Protocol.GapMayBeCommitted` | src/spool.rs:218-273 | A concrete run after which a batch is both a gap and committed: the two do not exclude each other |
| `Protocol.ExpiredMayStayPending` | src/spool.rs:96-111 | A concrete run after which a pending batch is older than the cutoff of a successful enqueue |
| `Upload.UploadOnce` | src/upload.rs:10-25 | Acknowledges a prefix of the snapshot and leaves the rest of the spool as it was; each acknowledged batch was answered by its own id and is one the store can represent; stops only at a faulty exchange and reports which fault; without one it acknowledges min(limit, pending); the run is a sequence of protocol steps |
| `Upload.UploadUntilEmpty` | src/upload.rs:10-25 | Fault-free runs with a positive limit, repeated, empty the spool and acknowledge exactly what was pending |
| `Upload.Post` | src/upload.rs:10-25 | One exchange is a sequence of protocol steps that leaves the spool alone; its batch id comes back only if the answer was neither lost nor foreign and the store holds the batch whole; every other answer is an error of its own kind; a lost request leaves the store as it was |
| `Upload.SendOne` | src/upload.rs:12-22 | Sending the oldest pending batch either acknowledges exactly that batch or leaves the spool as it was with the error of its fault |
| `Upload.AckHead` | src/spool.rs:151-160 | Acknowledging the oldest pending envelope drops exactly its row |
| `Upload.AcknowledgeHead` | src/upload.rs:18-22 | Acknowledging the oldest pending batch after its answer is one step of the protocol that drops that row and nothing else |
| `SpoolStore.Spool.constructor` | src/spool.rs:39-72 | A new spool is empty and numbers from zero |
| `SpoolStore.Spool.Enqueue` | src/spool.rs:74-137 | The new state and result: it is refused exactly for what does not fit and then changes nothing; otherwise it records the next number and envelope, answers how many gaps it added, and evicts a row only if that has expired or does not fit beside the new one; keeps the spool invariant |
| `SpoolStore.Spool.Pending` | src/spool.rs:139-149 | The oldest payloads up to the limit, in order, each exactly the envelope logged for its number |
| `SpoolStore.Spool.Acknowledge` | src/spool.rs:151-160 | The new state and result; an acknowledgement that fails changes nothing |
| `SpoolStore.Spool.Status` | src/spool.rs:162-180 | Counts and bytes, within budget, and together with gaps and acknowledgements accounting for every byte enqueued |
| `SpoolStore.Spool.Gaps` | src/spool.rs:182-200 | Every gap once, in order of sequence number |
| `SpoolStore.FindCandidate` | src/spool.rs:218-273 | The first row that is too old, or the oldest row when over budget; none only when both limits hold |
| `SpoolStore.EnforceLimits` | src/spool.rs:218-273 | The row-at-a-time loop ends and equals the two-phase specification: kept rows, gaps and count |
| `SpoolSpec.RangeIsExact` | src/spool.rs:309-314 | The bucket range is reached at both ends, bounds every bucket, and is absent exactly without buckets |
| `SpoolSpec.OverBudgetIsLeast` | src/spool.rs:218-273 | The byte phase removes the shortest prefix that brings the rest within budget |
| `SpoolSpec.EvictOldest` | src/spool.rs:218-273 | Over budget, evicting the oldest row leaves the same work to do |
| `SpoolSpec.EvictExpired` | src/spool.rs:218-273 | Within budget, evicting the first expired row leaves the same work to do, whatever the clocks did |
| `SpoolSpec.KeptMeetsLimits` | src/spool.rs:218-273 | What is kept meets both limits |
| `SpoolSpec.KeptOrEvicted` | src/spool.rs:218-273 | A row is among the rows exactly when it is kept or evicted |
| `SpoolSpec.LeastPrefixWhenOrdered` | src/spool.rs:218-273 | With creation times nondecreasing in number, the evicted rows are the least prefix whose removal meets both limits |
| `SpoolProofs.KeptAndEvictedSeqs` | src/spool.rs:218-273 | Kept and evicted numbers are disjoint and together are the numbers before, and order is kept |
| `SpoolProofs.AddGapsAdds` | src/spool.rs:261-303 | Eviction adds one gap per evicted row, labelled by whether it was expired, and alters no other gap |
| `SpoolProofs.InsertsCannotCollide` | src/spool.rs:46-69 | The next number and its batch id are unused, so no key or unique constraint can fail |
| `SpoolProofs.EnqueueKeepsInv` | src/spool.rs:74-137 | Pending, lost and acknowledged numbers stay a partition, pending bytes stay in budget, rows and gaps stay true to the log; a failure changes nothing |
| `SpoolProofs.EnqueueMeetsLimits` | src/spool.rs:112-137 | After an enqueue that fits, its batch is pending and no pending batch is older than the cutoff |
| `SpoolEnqueue.EvictsOnlyWhatItMust` | src/spool.rs:218-273 | A fitting enqueue removes a pending row if and only if it is older than the cutoff, or the rows from it on exceed the budget together with the new one; the new row stays and nothing else appears |
| `SpoolEnqueue.EnqueueRecords` | src/spool.rs:74-137 | An accepted enqueue logs the envelope asked for under the next number, answers the number of gaps it added, dates them by its own time, alters no earlier gap and acknowledges nothing |
| `SpoolEnqueue.EnqueueRefusedExactly` | src/spool.rs:83-131 | An enqueue fails if and only if the engine refuses, or a number, time, size, bucket start, budget or total does not fit; then nothing changes |
| `SpoolProofs.OversizedSkipsAgeLimit` | src/spool.rs:96-111 | The oversized branch keeps all pending rows, so the age limit then holds if and only if none was already too old |
| `SpoolProofs.AckRemovesOne` | src/spool.rs:151-160 | Acknowledging a pending envelope succeeds and removes exactly its row |
| `SpoolProofs.AckOfUnknownFails` | src/spool.rs:151-160 | Acknowledging anything else fails and changes nothing |
| `SpoolProofs.AckKeepsInv` | src/spool.rs:151-160 | Acknowledgement keeps the spool invariant |
| `SpoolProofs.IdsAreDistinct` | src/spool.rs:83-91 | Logged envelopes with the same batch id have the same number |
| `SpoolProofs.ByteLedger` | src/spool.rs:74-180 | In every state with the invariant, bytes enqueued = pending + lost + acknowledged |
| `SpoolProofs.GapListIsExact` | src/spool.rs:182-200 | The gap list is ascending and complete |
| `ControlSpec.ClosedForm` | src/control.rs:100-183 | After honest deliveries at nondecreasing times, in any order and number, the store is exactly the delivered batches no older than the last cutoff plus the last one delivered, each with its rows once |
| `ControlSpec.ExactlyOnce` | src/control.rs:100-183 | While nothing expires, the rows of each batch are stored exactly once, at its first delivery |
| `ControlSpec.RetryAbsorption` | src/control.rs:100-183 | Given room and a representable clock, ingesting twice leaves what the second ingest alone would have left, whether the first inserted, was a duplicate, conflicted or failed, whether the second is accepted or refused, and even for an expired batch |
| `ControlSpec.RefusedRetry` | src/control.rs:100-183 | With no room or no representable clock for the retry, the two stores agree if and only if the first attempt changes nothing, read off its inputs |
| `ControlSpec.RetryExactly` | src/control.rs:100-183 | For any store without orphans and whatever digests do, the retry absorbs the first attempt if and only if the retry alone is not refused or the first attempt changes nothing |
| `ControlSpec.RefusedRetryDiffers` | src/control.rs:100-183 | A new batch inserted into the empty store and retried without room: the stores differ |
| `ControlSpec.RefusedExactly` | src/control.rs:105-145 | An ingest fails if and only if its version, digest, room, clock, range or a live stored batch forbids it; and exactly when as a version, digest, room or conflict error |
| `ControlSpec.UnchangedExactly` | src/control.rs:100-183 | An ingest leaves the store as it was if and only if it is refused, repeats a batch while nothing has expired, or puts the only expired batch back in its place |
| `ControlSpec.HonestHasNoClash` | src/control.rs:113-141 | Among senders that never contradict each other the conditions of retry absorption always hold |
| `ControlSpec.HonestDelivery` | src/control.rs:100-183 | A delivery from such senders keeps every stored batch whole; a duplicate answer names a batch inserted before |
| `ControlSpec.IngestOnlyAdds` | src/control.rs:100-183 | For envelopes from anyone: no stored live batch or row of it is altered, no batch or row is added but the accepted one's, node, boot and number stay unique, a success leaves the batch stored with its checksum and an insert leaves its node, boot, number and time and exactly its rows |
| `ControlSpec.ConflictIsReal` | src/control.rs:113-141 | A well-formed envelope is refused only as a conflict, and that if and only if a live stored batch contradicts it and it is not itself stored |
| `ControlSpec.NoConflict` | src/control.rs:113-141 | Envelopes that never contradict each other are never refused as conflicts, however much was pruned |
| `ControlSpec.PruneTwice` | src/control.rs:326-343 | Pruning and pruning again later is pruning later |
| `ControlSpec.PruneOfInsert` | src/control.rs:326-343 | Pruning after an insert keeps a live batch with its rows last and erases an expired one without trace |
| `ControlSpec.IngestKeepsNoOrphans` | src/control.rs:100-183 | Every bucket row belongs to a stored batch, so the foreign key cannot fail |
| `ControlStoreObject.ControlStore.constructor` | src/control.rs:60-94 | A new store is empty |
| `ControlStoreObject.ControlStore.IngestAt` | src/control.rs:100-183 | The new tables and outcome of an ingest; errors roll the prune back, a duplicate commits it; keeps the table constraints |
| `ControlStoreObject.InsertEachBucket` | src/control.rs:157-180 | The loop over buckets appends one row each, or fails if any value is out of range |
| `ControlStoreObject.ControlStore.Nodes` | src/control.rs:185-203 | Every (node, capture point) with rows, once, by node and then point, with the exact first and last bucket |
| `ControlStoreObject.ControlStore.Stats` | src/control.rs:205-249 | Packets and bytes are the sums over the node's rows for the chosen points, flow buckets the number of those rows |
| `ControlStoreObject.ControlStore.Series` | src/control.rs:251-302 | A point per bucket with rows in the window, strictly increasing, each the sum of its rows; an error exactly for an empty window or a bound that does not fit |
| `Queries.InventoryIsExact` | src/control.rs:185-203 | The inventory lists exactly the pairs with rows, in the order of the two texts, and their exact bucket range |
| `Queries.ItemsInOrder` | src/control.rs:185-203 | The inventory's order is by node text and then by capture point text |
| `Queries.RowsCounted` | src/control.rs:205-249 | The row count is the number of rows of the node and, if given, the capture point |
| `Queries.SeriesRefusedExactly` | src/control.rs:258-264 | A series request fails exactly when a given bound does not fit or the window is empty, and otherwise answers the grouping of the window |
| `Queries.PointsAddUpToNode` | src/control.rs:185-249 | Flow buckets, packets and bytes of a node's listed points add up to the node's stats |
| `Queries.SeriesSumsToStats` | src/control.rs:205-302 | An unrestricted series is strictly increasing and sums to stats |
| `Queries.WindowSplits` | src/control.rs:251-302 | A window's grouping splits at any bucket into the groupings of its halves |
| `Queries.SeriesSplits` | src/control.rs:251-302 | The answers for the two halves of a window, joined, are the answer for the window |
| `Queries.ReportedWindowIsWhole` | src/dashboard.html:960-977 | Asking for the window the inventory reports, or any larger one, returns the unrestricted series |
| `Queries.NodeIsolation` | src/control.rs:326-343 | An ingest for one node changes another node's rows only by pruning |
| `Queries.IngestKeepsRowsFit` | src/control.rs:157-180 | Stored values always fit SQLite integers |
| `Flows.GroupedIsGrouping` | src/control.rs:265-301 | The grouped query returns increasing buckets, exactly those with rows, with their sums |
| `Flows.GroupingUnique` | src/control.rs:265-301 | There is only one such answer |
| `Flows.SameSumsSameGrouping` | src/control.rs:265-301 | Rows with equal sums at every bucket and at least one packet each give the same answer, however they are split |
| `EndToEnd.CapturedSeries` | src/capture.rs:49-118 | When a capture run's batches carry all it parsed and are what the store holds for the node, the series of its capture point is the frames it parsed, grouped by time, each point with the plain count and bytes of the packets in its bucket |
| `EndToEnd.EndToEndMeaning` | src/control.rs:251-302 | For any pushes and drains ending in a full drain, cut into batches in any way and all held by the store after honest deliveries in any order and number among other nodes' batches, the series is the pushed packets grouped by timestamp / width * width, each point with the plain count and bytes of the packets in its bucket |
| `EndToEnd.SeriesIsThePackets` | src/control.rs:251-302 | The same for any store whose rows for the node are those of batches that carry the packets' sums, each point with the plain count and bytes of the packets in its bucket |
| `EndToEnd.StoredSums` | src/control.rs:157-180 | After any honest log the node's rows sum to the contents of its held batches: those no older than the last cutoff and the last one delivered |
| `EndToEnd.StatsOfHeld` | src/control.rs:205-249 | After any honest log the batch count is the number of the node's held batches, or of those with a bucket of the given point, the row count that of its rows, and packets and bytes sum their contents |
| `EndToEnd.StatsOfBatches` | src/control.rs:205-249 | The same for any store whose rows for the node are those of some batches |
| `EndToEnd.GroupedIsSeries` | src/control.rs:251-302 | Packets grouped by bucket are a strictly increasing list of every bucket with a packet of the point, each with the number of those packets and the sum of their bytes |
| `EndToEnd.RowsSum` | src/control.rs:157-180 | If a node's rows are those of some batches in any order, every sum over them is the sum over the batches |
| `Pipeline.CaptureUploadQuery` | src/main.rs:138-181 | Capture, upload over any network and query, run in sequence: when the capture returned, every batch got through and none expired, the answer is the captured frames grouped by time, each point with the plain count and bytes of the packets in its bucket |
| `Pipeline.TurnAdds` | src/capture.rs:50-67 | A frame that is an encoding adds one packet with its addresses, protocol, ports and direction and the read's time and length; another frame adds one failure unless it is skipped; anything else adds nothing |
| `Pipeline.DeliveredRows` | src/upload.rs:10-25 | With nothing pending, lost or expired, the store's rows for the node are exactly the spooled batches |
| `EndToEnd.OrderDoesNotMatter` | src/control.rs:251-302 | Distinct batches in another order have the same sums |
| `Capture.Run` | src/capture.rs:49-118 | At every exit: parsed packets = batches + retained + lost with a failing step; parse failures = reported + still counted + those cleared before an enqueue the spool refused; each batch is nonempty, sorted, holds only closed buckets and reports exactly what was counted since the one before; while it runs no closed bucket is retained; each way of stopping has its cause; a normal return retains nothing and comes at the batch limit |
| `Capture.TakeTurn` | src/capture.rs:49-118 | One turn keeps all of that or ends with it: read, clock, drain, counters, enqueue, batch limit |
| `Capture.HandleRead` | src/capture.rs:50-67 | One read adds its packet to the counters or its failure to the error count, or neither |
| `Capture.Report` | src/capture.rs:74-95 | A batch of closed buckets carries the differences since the last one |
| `Capture.Finish` | src/capture.rs:104-117 | What is retained at the end goes into one final batch with its own clock and empty diagnostics, or is the loss of a failing step |
| `Capture.Emit` | src/capture.rs:89-95 | A committed enqueue logs exactly the buckets, clock and diagnostics given |
| `Capture.ReportsAddUp` | src/capture.rs:74-88 | Reported parse errors sum to the failures up to the last batch; reported driver counts sum to the driver's count if and only if it never went back between batches |
| `Aggregate.Aggregator.constructor` | src/aggregate.rs:12-18 | A new aggregator is empty |
| `Aggregate.Aggregator.Push` | src/aggregate.rs:20-25 | For any key, point or all and any aligned bucket, the table's packet count grows by one and its bytes by the packet's if the packet falls there, and not otherwise |
| `Aggregate.Aggregator.DrainBefore` | src/aggregate.rs:27-31 | Hands out exactly the earlier buckets, sorted, and keeps exactly the rest |
| `Aggregate.Aggregator.DrainAll` | src/aggregate.rs:33-35 | Hands out the whole table, sorted, and empties it |
| `Aggregate.UpsertSorted` | src/aggregate.rs:20-25 | A push keeps the table strictly sorted, so a key occurs once |
| `Aggregate.UpsertSum` | src/aggregate.rs:20-25 | A push adds one packet and its bytes to its own (bucket, key) and nothing else |
| `Aggregate.DrainIsExact` | src/aggregate.rs:27-31 | Splitting at the minimum key cuts by bucket alone and keeps both parts strictly sorted |
| `Aggregate.Conservation` | src/aggregate.rs:20-48 | Over any trace and any selection, the table plus everything drained is exactly the pushed packets |
| `Aggregate.PacketsCounted` | src/aggregate.rs:20-48 | Over any trace, for any key, point or all and any aligned bucket, what the table and the drained buckets report is the number of pushed packets with a timestamp in that bucket and the sum of their bytes |
| `Aggregate.PushCounts` | src/aggregate.rs:20-25 | A push counts its packet once, with its bytes, in its own bucket and nowhere else |
| `Aggregate.SortedIsDerived` | src/aggregate.rs:38-48 | The table and every drain are in strictly increasing derived order |
| `Aggregate.TraceInvariant` | src/aggregate.rs:20-48 | Over any trace the table is sorted and every bucket, kept or drained, counted a packet and starts on a multiple of the width |
| `Aggregate.BucketContains` | src/aggregate.rs:21-21 | A bucket is a packet's if and only if it is aligned and contains the timestamp |
| `Orders.Total` | src/model.rs:37-46 | The encoded key order is total |
| `Orders.Transitive` | src/model.rs:37-46 | The encoded key order is transitive |
| `Orders.CodeOrderIsDerived` | src/model.rs:8-46 | Comparing codes is comparing buckets and then keys by the first field that differs: text, declared variant, payload, address family and octets, absent port first |
| `Orders.EntryCodeInjective` | src/model.rs:8-46 | Equal codes mean equal bucket and key, over all seven fields |
| `Orders.MinimumIsBottom` | src/aggregate.rs:50-60 | The constructed minimum key is not above any key |
| `Orders.SplitKeyCutsByBucket` | src/aggregate.rs:27-31 | An entry is below (cut, minimum key) if and only if its bucket is below the cut |
| `PacketRoundTrip.RoundTrip` | src/packet.rs:48-237 | For Ethernet with up to two VLAN tags, raw, SLL and SLL2 frames, IPv4 of any header length and IPv6 with any chain of up to eight extension headers, the parser returns the encoded addresses, protocol, ports (none on later fragments) and direction |
| `PacketOutcomes.AcceptsExactlyEncodings` | src/packet.rs:48-225 | The parser accepts a frame if and only if the encoder makes it |
| `PacketOutcomes.TypedOutcome` | src/packet.rs:48-225 | For Ethernet with up to two tags, SLL and SLL2 and every payload: skipped if and only if the ethertype is neither IPv4 nor IPv6, invalid if and only if a whole minimal header has the wrong version or under five words, accepted if and only if it is an encoded packet, and truncated otherwise |
| `PacketOutcomes.RawOutcome` | src/packet.rs:97-104 | The same for raw frames, which are never skipped and invalid also for any other first half-byte |
| `PacketOutcomes.LaidOutOrCutShort` | src/packet.rs:79-113 | Every other frame of those link types is truncated |
| `PacketOutcomes.UnsupportedExactly` | src/packet.rs:79-113 | A link type is unsupported if and only if it is none of the four |
| `PacketOutcomes.Ipv4Outcome` | src/packet.rs:115-150 | Every payload read as IPv4 is invalid, an encoded packet or cut short, exactly when stated |
| `PacketOutcomes.Ipv6Outcome` | src/packet.rs:152-207 | Every payload read as IPv6 likewise |
| `PacketOutcomes.DecodeChain` | src/packet.rs:163-195 | Every chain the walk passes is the encoding of some extension headers |
| `PacketRoundTrip.LinkRoundTrip` | src/packet.rs:79-113 | The IP header is found where the encoder put it, with its type |
| `PacketRoundTrip.Ipv4RoundTrip` | src/packet.rs:115-150 | The IPv4 header at any offset reads back |
| `PacketRoundTrip.Ipv6RoundTrip` | src/packet.rs:152-207 | The IPv6 header and chain at any offset read back |
| `PacketRoundTrip.ChainRoundTrip` | src/packet.rs:166-195 | Walking an encoded chain ends behind it with the final protocol; the last fragment header decides whether ports follow |
| `PacketRoundTrip.PortsRoundTrip` | src/packet.rs:209-225 | Ports read back, or are absent for other protocols |
| `PacketRoundTrip.LaterFragmentPayload` | src/packet.rs:176-184 | Whatever the payload, the walk stops behind a later fragment's header if and only if that does not announce an extension header or was the eighth header |
| `PacketRoundTrip.Ipv4BoundIsTight` | src/packet.rs:79-150 | The bound of 86 bytes is reached: a frame that parses at 86 bytes is truncated at 85 |
| `PacketBounds.TruncationStability` | src/packet.rs:48-225 | An outcome other than truncated stays the same when bytes are appended |
| `PacketBounds.Ipv4DecidedBy86` | src/packet.rs:79-150 | Eighty-six bytes decide every frame that is dispatched to IPv4 |
| `PacketBounds.Ipv6DecidedByHeaders` | src/packet.rs:152-207 | A successful IPv6 parse needs at most 66 bytes and its extension headers |
| `PacketBounds.EveryFrameDecidedBy16450` | src/packet.rs:79-225 | 16450 bytes decide every frame |
| `PacketBounds.SnapLengthIsLossless` | src/capture.rs:35-35 | Cutting at 256 bytes changes no IPv4 outcome and no successful IPv6 parse with at most 190 bytes of extension headers |
| `PacketBounds.IpOffsetBound` | src/packet.rs:79-113 | The IP header starts within the first 22 bytes |
| `PacketBounds.WalkBound` | src/packet.rs:163-195 | The walk reads at most 2048 bytes per extension header |
| `Packet.LocateIp` | src/packet.rs:79-113 | The VLAN loop, which reads only inside the frame, computes the link-layer specification |
| `Packet.WalkExtensions` | src/packet.rs:163-195 | The extension-header loop computes the recursive walk |
| `Packet.ReadIpv6` | src/packet.rs:152-207 | The imperative IPv6 parser computes its specification |
| `Packet.ReadPacket` | src/packet.rs:48-77 | So does the whole parser, for every frame, link type and address list |
| `Model.BatchIdDecodes` | src/model.rs:101-107 | The sequence number can be read back from any batch id, whatever colons the node and boot ids contain |
| `Model.ExpiredMeansOlder` | src/control.rs:331-332 | Before the cutoff means older than the maximum age, also near time zero |
| `Model.BatchIdsCoincide` | src/model.rs:101-107 | Two batch ids are equal if and only if the numbers, the digest prefixes and the joined node and boot ids are |
| `Model.BatchIdIdentifiesBatch` | src/model.rs:101-107 | Node ids without colons make the id identify node, boot and number |
| `Model.BatchIdForgetsNodeBoundary` | src/model.rs:101-107 | Two batches of the same number whose node and boot ids join to the same text have the same id if and only if their digest prefixes are equal |
| `Model.ParseOfDecimal` | src/model.rs:101-107 | Decimal digits read back to the number |

## Left out

- SQLite itself: pragmas, page and space limits, durability, opening an existing file. Storage-full is an input to each call.
- SpoolStore.Spool.Enqueue: sequence numbers, totals and counters are unbounded integers apart from the conversions the program checks. The increment of `next_seq` beyond the SQLite range, overflow inside SUM and overflow of 64-bit counters are not modelled.
- Aggregate.Aggregator.Push: 64-bit overflow of the packet and byte counters is not modelled.
- Serialisation and the digest are uninterpreted: a stored payload reads back as the envelope that was written.
- Spool limits are fixed for the life of a spool; the program may reopen a file with others.
- Upload.UploadOnce: the method runs alone on its spool. Enqueues, evictions and other uploaders between its steps are covered by the Protocol module's step relation, over which no liveness is claimed.
- Upload.UploadUntilEmpty: requires every pending batch to be one the store can represent; what happens to others is stated by Upload.UploadOnce and the Protocol module.
- Protocol.NoSilentLoss: one spool talks to the store. Several nodes with distinct ids sharing it are covered by the receiver's own theorems, which speak of any non-conflicting senders.
- Pipeline.CaptureUploadQuery: the program runs the steps as separate processes over shared files; here they run one after the other, and interleavings are left to the Protocol module. Nothing is claimed of the answer when a batch was evicted or expired, beyond what EndToEnd.StoredSums says of the batches still held.
- Capture.Run: the status query behind the log line after an enqueue cannot fail here, and opening the device, its filter and the pcap handle are replaced by the stream of turns.
- Queries.PointsAddUpToNode: a batch with rows at several capture points counts at each of them, so batch counts do not add up and nothing is claimed of their sum.
- Packet.ReadPacket: the layer named in a truncation or an invalid header is carried along, but only the kind of the error is claimed.
- HTTP routing, status codes, the HTTP client, mutexes, the command line, the fixture generator and the dashboard's rendering.
- Strings are sequences of characters compared by code point, which is the byte order of their UTF-8 form. Direction and protocol columns of the control store hold the values themselves, not their names.

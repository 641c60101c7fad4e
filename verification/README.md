# Noshtastic link and sync, modelled in Dafny

Noshtastic synchronises nostr notes over Meshtastic radios. This project models the protocol that carries
them, in `crates/noshtastic-link`, and the parts of `crates/noshtastic-sync` whose guarantees rest on it, and
proves what they keep over whole runs.

- **Fragment cache** (`FragCache.dfy`, `FragHistory.dfy`, `Fragmentation.dfy`, `Repair.dfy`, `RetryBudget.dfy`,
  `ResendHistory.dfy`, `Rotation.dfy`). A payload over 200 bytes is cut into chunks; a node collects them, hands
  the message to its client once, asks for what is missing and resends what it holds, each time with another
  octet rotation. A slot counts as missing when its data is empty, the slot count is what the first fragment
  said, and entries are never purged (the comment at fragcache.rs:130 says they are; the code has that disabled).
- **Outgoing queues and regulator** (`Outgoing.dfy`, `Scheduler.dfy`, `SchedulerRuns.dfy`,
  `SchedulerCounts.dfy`). Two queues with
  duplicate, class and size rules, and the one task that empties them, paced and woken by tokens. The run model
  interleaves submissions, withdrawals, clock ticks and the regulator's own actions freely; every frame
  carries a ticket, its number in acceptance order.
- **Link object and whole mesh** (`LinkProtocol.dfy`, `Link.dfy`, `Mesh.dfy`, `MeshHearing.dfy`,
  `MeshHistory.dfy`, `MeshRepair.dfy`, `MeshDelivery.dfy`, `Locks.dfy`). The handlers as
  methods over the cache and queue objects; any number of nodes on a channel that loses, repeats and reorders;
  the two locks. In the mesh a handler's work on the queues is a list of operations carried out one at a time,
  so that regulators run in between, as they do when the handler awaits the queues lock.
- **Escape codec** (`Escape.dfy`), **thresholds** (`Policies.dfy`), **sync task** (`Sync.dfy`),
  **recent ids** (`LruSet.dfy`), **compact notes** (`EncNote.dfy`), **repeated starts** (`RepeatedStart.dfy`).

Classes (`FragmentCache`, `Outgoing`, `Link`, `LruSet`, `Sync`) update their fields as the source does; their
methods are proved against value-level functions, and the theorems over runs are about those functions.
Clock readings, hashes, random choices and the results of libraries are parameters.

Findings about the source that the proofs make exact:

- The size cap is tested before the frame is added, so a queue holds up to one frame more than its maximum
  (`QueuesStayInShape`, `QueueFills`). An attempt takes a queue over its maximum exactly when the queue is at
  its maximum, the frame is accepted and it displaces nothing (`WithinMaxIff`). Because of that one frame, a
  single queue can trigger a pause at every data rate; without it that would hold exactly from 0.0528 kbps up
  (`PauseAlwaysReachable`, `PauseFitsQueueIff`).
- The first resend of a fragment uses offset 0 and so repeats the original bytes; after that exactly every 256th
  does (`ResendOffsets`).
- A normal frame waits only for the frames ahead of it and for high-priority frames accepted meanwhile
  (`NormalFrameLeavesInTime`); any number of those can pass it by (`NormalFrameCanStarve`).
- A message's fragments need not all be queued. They all are exactly when the queue is not full, holds nothing of
  their class above their level, not the first of them, none of them once the frames below their level are gone,
  and then has room for all (`FragmentsAcceptedIff`). On the slowest preset even empty queues cut a 1000-byte
  message (`LastFragmentRefused`); and one queued reply keeps out every fragment of a lower one, whatever the room
  (`LowerReplyRefused`).
- A sender hands its own fragmented message to its own client when it first hears a copy (`SenderHearsItself`).
- `LruSet` does not renew an id that is inserted again; it is a first-in first-out window (`NotRenewed`). So a note
  can be echoed after a single other note since it was last heard (`EchoAfterHearingAgain`); it is held back
  exactly while fewer than twenty others have been newly heard since it last was (`NoEcho`).
- A compact note that does not convert back to an event, or does not unpack, panics its handler, which holds the
  lock; from then on every handler of the sync task panics, and nothing more is sent (`SilentAfterPanic`). Which
  notes these are can be told from their bytes (`ConvertsIff`, `PoisonedIffUnconvertible`): one id of 31 bytes is
  enough (`ShortIdSilences`), and the notes that nodes make of proper events never do it (`ProperNotesNeverPoison`).
- Entries are never purged, so a message once handed up is never handed up again (`NeverHandedUpAgain`); a repeated
  start of an exchange over unchanged data, sent in fragments, is lost on every node that completed the first
  (`RepeatedStartIsLost`).
- A reply outranks every start of an exchange except for the one incoming level 2^32 - 1, where a release build
  wraps to level 0 (`RepliesAreAboveStarts`).

## Model

| member | source | states |
|---|---|---|
| `Escape94C3.EscapeLoop` | crates/noshtastic-link/src/lib.rs:377-395 | the encoding loop computes the code defined token by token, about which the next rows are proved |
| `Escape94C3.UnescapeLoop` | crates/noshtastic-link/src/lib.rs:398-424 | the decoding loop, both error cases included, computes the decoder the next rows are about |
| `Escape94C3.UnescapeEscape` | crates/noshtastic-link/src/lib.rs:377-424 | decoding an encoded buffer returns it, for every buffer |
| `Escape94C3.CodesOnAir` | crates/noshtastic-link/src/lib.rs:381-392 | EE goes out as EE 00, 94 C3 as EE 01 and any other byte as itself |
| `Escape94C3.UnescapeFailsAt` | crates/noshtastic-link/src/lib.rs:402-416 | which error a buffer gives: a cut-off escape, or the first code other than 00 and 01 |
| `Escape94C3.EscapeHasNoPair` | crates/noshtastic-link/src/lib.rs:376-395 | an encoded buffer never contains 94 C3 |
| `Escape94C3.UnescapeSucceedsIff` | crates/noshtastic-link/src/lib.rs:398-424 | a buffer decodes exactly when every EE in it is followed by 00 or 01 |
| `Escape94C3.EscapeUnescapeIff` | crates/noshtastic-link/src/lib.rs:377-424 | re-encoding a decodable buffer returns it exactly when it is free of 94 C3 |
| `Escape94C3.EscapeImage` | crates/noshtastic-link/src/lib.rs:377-424 | the possible encodings are exactly the well-escaped buffers without 94 C3 |
| `Escape94C3.EscapeLength` | crates/noshtastic-link/src/lib.rs:377-395 | encoding adds exactly one byte for each EE |
| `Escape94C3.EscapeConcatIff` | crates/noshtastic-link/src/lib.rs:377-395 | encoding distributes over concatenation exactly when 94 C3 does not straddle the seam |
| `Rotation.UnrotateRotate` | crates/noshtastic-link/src/fragcache.rs:25-41 | rotation by any offset is undone by unrotation, and the other way round |
| `Rotation.RotateAdds` | crates/noshtastic-link/src/fragcache.rs:25-35 | rotation adds the offset to every octet modulo 256 |
| `Rotation.BadOffsetsBound` | crates/noshtastic-link/src/fragcache.rs:25-35 | a given byte pair occurs in at most L - 1 of the 256 rotations of L bytes |
| `Rotation.BadOffsetsBoundIsSharp` | crates/noshtastic-link/src/fragcache.rs:25-35 | for each L up to 256 some data has 94 C3 in exactly L - 1 rotations |
| `Rotation.SomeResendIsClean` | crates/noshtastic-link/src/fragcache.rs:25-41 | among L consecutive sends of an L-byte fragment one is free of the pair, and all unrotate to the data |
| `ResendHistory.LogWalksOffsets` | crates/noshtastic-link/src/fragcache.rs:184-216 | over a cache's whole life the sends of one slot use the offsets 0, 1, 2, ... in order, on its data |
| `ResendHistory.ResendOffsets` | crates/noshtastic-link/src/fragcache.rs:25-35 | resend number j has offset j modulo 256, and repeats the unrotated bytes exactly when 256 divides j |
| `ResendHistory.CleanAmongConsecutiveResends` | crates/noshtastic-link/src/fragcache.rs:184-216 | whatever happens in between, any L consecutive resends of an L-byte fragment include one free of the pair |
| `FragCache.FragmentCache.AddFragment` | crates/noshtastic-link/src/fragcache.rs:67-127 | the method's new state and returned message are those of the function the history theorems are about |
| `FragCache.FragmentCache.OverdueMissing` | crates/noshtastic-link/src/fragcache.rs:131-180 | exactly the due entries are asked for, each once, in ascending order, with exactly their empty slots, and only their retry times change |
| `FragCache.FragmentCache.FulfillMissing` | crates/noshtastic-link/src/fragcache.rs:184-216 | the method's answers and new state are those of the function the next two rows are about |
| `FragCache.MissingFrom` | crates/noshtastic-link/src/fragcache.rs:154-160 | the missing indices are, in ascending order, exactly the empty slots |
| `FragCache.RequestsHaveGaps` | crates/noshtastic-link/src/fragcache.rs:162-164 | a request list asks for no message without a gap, and never for an empty list of fragments |
| `FragCache.AnswerIsHeldData` | crates/noshtastic-link/src/fragcache.rs:190-208 | every answer is a requested, held slot and unrotates to the cached data |
| `FragCache.AnswerSendsHeld` | crates/noshtastic-link/src/fragcache.rs:190-208 | every requested slot that is held is answered |
| `FragCache.AnswerInRequestOrder` | crates/noshtastic-link/src/fragcache.rs:190-208 | the answered indices are the requested ones that are held, in the order and number of the request |
| `FragCache.AnswerKeepsData` | crates/noshtastic-link/src/fragcache.rs:190-208 | answering never changes cached data |
| `FragHistory.RunMirrors` | crates/noshtastic-link/src/fragcache.rs:67-127 | after any calls a slot holds the last data written to it, and the completed flag says whether a completing call has happened |
| `FragHistory.DeliveredExactlyAtFirstCompletion` | crates/noshtastic-link/src/fragcache.rs:94-126 | a call returns a message exactly when it is the first heard, in-range fragment after which no slot is empty; the data is the slots in order |
| `FragHistory.DeliveredAtMostOnce` | crates/noshtastic-link/src/fragcache.rs:104-126 | no message is returned twice in a cache's life |
| `Fragmentation.ChunkSizes` | crates/noshtastic-link/src/link.rs:495-498 | no chunk is empty, all but the last have 200 bytes, and the count is the length over 200 rounded up |
| `Fragmentation.JoinedChunks` | crates/noshtastic-link/src/link.rs:493-505 | the chunks in order are the payload |
| `Fragmentation.CompletingIffAllCame` | crates/noshtastic-link/src/fragcache.rs:94-121 | with copies only, a call completes the message exactly when it is heard and by then every chunk has come |
| `Fragmentation.DeliveryIsPayload` | crates/noshtastic-link/src/fragcache.rs:104-121 | what is delivered from copies is the payload byte for byte |
| `Fragmentation.DeliveredWhenLastChunkComes` | crates/noshtastic-link/src/fragcache.rs:67-127 | for copies heard in any order, with duplicates, rotations and other traffic, delivery is at the very call that brings the last chunk |
| `Fragmentation.PayloadRoundTrip` | crates/noshtastic-link/src/link.rs:493-531 | the payload comes out exactly when every chunk has come |
| `Fragmentation.SenderHearsItself` | crates/noshtastic-link/src/link.rs:506-507 | a node that cached all its own chunks delivers its own message once, at the first copy it hears |
| `RetryBudget.RunRecordsAsks` | crates/noshtastic-link/src/fragcache.rs:131-180 | an entry's times record exactly when its message was first seen and last asked for |
| `RetryBudget.AskedExactlyWhen` | crates/noshtastic-link/src/fragcache.rs:138-172 | told from the calls alone: a message is asked for exactly from 60 to 300 seconds after its first fragment, 60 seconds or more after the last request, while some slot has nothing written to it |
| `RetryBudget.AskedInWindow` | crates/noshtastic-link/src/fragcache.rs:144-151 | requests go out 60 to 300 seconds after first sight and 60 seconds apart, for every clock |
| `RetryBudget.AtMostFourRequests` | crates/noshtastic-link/src/fragcache.rs:131-180 | at most four requests for a message over any calls and any clock readings |
| `RetryBudget.FourRequestsHappen` | crates/noshtastic-link/src/fragcache.rs:131-180 | four requests do happen |
| `RetryBudget.AtMostTwoRequestsOnTimer` | crates/noshtastic-link/src/link.rs:36-36 | on the 180 second timer a steady clock allows at most two |
| `RetryBudget.RequestListLength` | crates/noshtastic-link/src/fragcache.rs:138-172 | a request list has one entry for each due message |
| `RetryBudget.RequestsSentBounded` | crates/noshtastic-link/src/fragcache.rs:131-180 | all requests together are at most four for each distinct message seen |
| `Repair.FeedFills` | crates/noshtastic-link/src/fragcache.rs:94-99 | hearing copies fills exactly the slots they carry; what was held stays held |
| `Repair.FeedDelivers` | crates/noshtastic-link/src/fragcache.rs:104-121 | copies complete a message in progress exactly when they leave no gap, and then deliver it once |
| `Repair.RepairRound` | crates/noshtastic-link/src/fragcache.rs:153-216 | one lossless round removes from the gap exactly what the responders hold, and delivers the payload once exactly when that is all of it |
| `OutgoingQueues.Outgoing.Enqueue` | crates/noshtastic-link/src/outgoing.rs:101-158 | the method's new queues and action are those of the function the next rows are about; a wakeup is sent exactly when both queues were empty |
| `OutgoingQueues.Outgoing.Cancel` | crates/noshtastic-link/src/outgoing.rs:160-181 | the method's new queues are those of the cancelling function |
| `OutgoingQueues.Outgoing.TakeNext` | crates/noshtastic-link/src/outgoing.rs:191-198 | the method takes what the popping function takes |
| `OutgoingQueues.EnqueueOutcome` | crates/noshtastic-link/src/outgoing.rs:116-157 | when a frame is accepted or refused, with which action, and exactly which queued frames an accepted one displaces |
| `OutgoingQueues.OtherClassesUnaffected` | crates/noshtastic-link/src/outgoing.rs:129-149 | frames without a class or of other classes neither displace nor keep out a frame |
| `OutgoingQueues.EnqueueKeepsInv` | crates/noshtastic-link/src/outgoing.rs:116-152 | distinct ids, one level per class and a length of at most max + 1 are kept |
| `OutgoingQueues.WithinMaxIff` | crates/noshtastic-link/src/outgoing.rs:116-152 | an attempt leaves a queue within its maximum exactly when there was room, the frame is refused, or it displaces another |
| `OutgoingQueues.EnqueueRaisesLevel` | crates/noshtastic-link/src/outgoing.rs:129-149 | accepting a frame never lowers the level at which a class is queued |
| `OutgoingQueues.OnlyLowerIsDisplaced` | crates/noshtastic-link/src/outgoing.rs:141-148 | a frame is displaced only by its own class at a higher level; level 0 displaces nothing |
| `Scheduler.ReachableInv` | crates/noshtastic-link/src/outgoing.rs:101-267 | conservation, order, justified purges, queue shape, no lost wakeup and pacing hold in every reachable state |
| `SchedulerRuns.NoFrameIsStuck` | crates/noshtastic-link/src/outgoing.rs:101-267 | whenever a frame is queued the regulator can move; every accepted frame is queued, popped, cancelled or purged, exactly one of these |
| `SchedulerRuns.PopsWithinThreeTurns` | crates/noshtastic-link/src/outgoing.rs:190-265 | from any reachable state with a frame queued, three turns of the regulator pop one |
| `SchedulerRuns.HighFrameLeavesInTime` | crates/noshtastic-link/src/outgoing.rs:141-197 | a high-priority frame with k ahead of it has left by the (k+1)-th pop, under every interleaving |
| `SchedulerRuns.NormalFrameLeavesInTime` | crates/noshtastic-link/src/outgoing.rs:141-197 | a normal frame with k normal and h high-priority frames ahead has left by the (k+h+a+1)-th pop, a being the high-priority frames accepted meanwhile, under every interleaving |
| `SchedulerRuns.NormalFrameCanStarve` | crates/noshtastic-link/src/outgoing.rs:192-195 | for every n, after n high-priority frames n pops have left the only normal frame queued, so the bound above is met |
| `SchedulerRuns.NormalOnlyWhenHighIsEmpty` | crates/noshtastic-link/src/outgoing.rs:192-195 | a normal frame is popped only when no high-priority frame is queued |
| `SchedulerRuns.LevelNeverDecreases` | crates/noshtastic-link/src/outgoing.rs:129-149 | while a class stays in a queue its level never decreases, over any run |
| `SchedulerRuns.QueuesStayInShape` | crates/noshtastic-link/src/outgoing.rs:116-152 | ids distinct, one level per class, at most max + 1 frames, in every reachable state |
| `SchedulerRuns.QueueFills` | crates/noshtastic-link/src/outgoing.rs:116-119 | max + 1 frames are reached |
| `SchedulerRuns.CancelledWasWithdrawn` | crates/noshtastic-link/src/outgoing.rs:160-181 | a frame counts as cancelled only if its id was withdrawn at its priority |
| `SchedulerCounts.WithdrawTakesAll` | crates/noshtastic-link/src/outgoing.rs:160-181 | in every reachable state a withdrawal cancels exactly the queued frames with its id at its priority and changes nothing else |
| `SchedulerCounts.PoppedIsSent` | crates/noshtastic-link/src/outgoing.rs:191-256 | every popped frame has been sent, at the clock of its step, or failed to encode, or is in hand |
| `SchedulerCounts.FailureCostsNoPause` | crates/noshtastic-link/src/outgoing.rs:201-205 | after a frame that cannot be encoded the next is popped without a pause |
| `SchedulerCounts.WakeupsBalance` | crates/noshtastic-link/src/outgoing.rs:108-156 | wakeups sent, one for each frame accepted into empty queues, are those received, each once, and those outstanding |
| `SchedulerCounts.WakeupsAreFew` | crates/noshtastic-link/src/outgoing.rs:108-156 | outstanding wakeups are at most one more than the frames popped or cancelled |
| `SchedulerCounts.RestsWhenIdle` | crates/noshtastic-link/src/outgoing.rs:258-264 | with nothing queued and no wakeup outstanding the regulator comes to rest |
| `SchedulerRuns.RateBound` | crates/noshtastic-link/src/outgoing.rs:190-256 | at most width / pause + 1 packets in every window of every run |
| `SchedulerRuns.LimitsAtDataRate` | crates/noshtastic-link/src/outgoing.rs:32-50 | the rate and length bounds a node keeps at its data rate |
| `Locks.HoldersAreExclusive` | crates/noshtastic-link/src/outgoing.rs:191-213 | each lock has one holder, and whoever holds the queues lock waits for nothing |
| `Locks.EveryWaitEnds` | crates/noshtastic-link/src/outgoing.rs:191-213 | in every reachable state each wait leads, over at most one other task, to a task that can move: no deadlock |
| `Locks.BothLocksContended` | crates/noshtastic-link/src/outgoing.rs:191-213 | the contended case is reachable: a handler with both locks, the regulator waiting for the link with its frame in hand |
| `LinkProtocol.OriginalIsCopy` | crates/noshtastic-link/src/link.rs:498-505 | each fragment a sender builds is a copy in the sense of the round trip |
| `LinkProtocol.HeardCopyIsDropped` | crates/noshtastic-link/src/link.rs:357-374 | hearing a message or fragment removes exactly the node's own queued copies of it |
| `LinkProtocol.OwnChunksAreHeld` | crates/noshtastic-link/src/link.rs:498-507 | after a send the sender's cache holds every chunk, exactly unless it knew the id with another number of slots |
| `LinkProtocol.AlikeOffered` | crates/noshtastic-link/src/outgoing.rs:116-157 | what any queue holds after frames of one class and level, or none, have been offered to it one after the other: with purging, duplicates, preemption and the cap |
| `LinkProtocol.FragmentsAcceptedIff` | crates/noshtastic-link/src/link.rs:519-523 | for any queue: all fragments of a message are accepted exactly under the condition given in the findings above, and then stand in order behind what they left of the queue, when no frame is taken meanwhile |
| `LinkProtocol.LowerReplyRefused` | crates/noshtastic-link/src/outgoing.rs:131-139 | a queued negentropy frame of level 2 keeps out every fragment of a level 1 message |
| `LinkProtocol.FragmentsQueued` | crates/noshtastic-link/src/link.rs:498-523 | into a queue with none of their ids and nothing of their class at another level, the fragments go in index order, each as its unrotated chunk under its own id, up to max + 1; all are queued exactly when there is room for all |
| `LinkProtocol.LastFragmentRefused` | crates/noshtastic-link/src/link.rs:493-531 | on the slowest preset empty queues take four of the five fragments of any 1000-byte message |
| `LinkObject.Link.SendLinkMessage` | crates/noshtastic-link/src/link.rs:457-531 | a payload up to 200 bytes is accepted as one frame under the client's id and policy, behind what it leaves of the chosen queue, exactly when that is not over its maximum and holds neither the id nor its class above it; a longer one is cached whole and its fragments have the outcome that AlikeOffered states for any queue; the other queue stays as it is |
| `LinkObject.Link.HandleLinkFrame` | crates/noshtastic-link/src/link.rs:290-431 | a complete message goes to the client, a fragment hands up what it completes, and exactly the frames queued under the id heard are dropped; a request is answered as NeedAnsweredInOrder states; a frame without payload changes nothing |
| `LinkObject.Link.SendFragmentRetries` | crates/noshtastic-link/src/link.rs:198-239 | all due requests are offered to the high queue as one frame; nothing is when none are due |
| `LinkObject.Link.ReceivePacket` | crates/noshtastic-link/src/link.rs:256-287 | a stale packet only postpones readiness; any other is handled and leaves readiness alone |
| `LinkObject.Link.MaybeDeclareReady` | crates/noshtastic-link/src/link.rs:174-196 | ready, followed by an info message, is sent exactly when the gate opens |
| `ReadyGate.ReadyOnceAfterQuiet` | crates/noshtastic-link/src/link.rs:174-196 | ready is declared at most once, five seconds after the start and after every stale packet before it |
| `ReadyGate.ReadyWhenQuiet` | crates/noshtastic-link/src/link.rs:174-273 | a check that finds five quiet seconds means ready has been declared by then |
| `Meshes.PacketsAreReceived` | crates/noshtastic-link/src/link.rs:278-284 | a packet on the air is received as the frame that was sent and never holds 94 C3 |
| `Meshes.StepKeepsTruth` | crates/noshtastic-link/src/link.rs:290-531 | every step of every node keeps all caches, queues, packets and upcalls true to the payloads |
| `Meshes.Integrity` | crates/noshtastic-link/src/fragcache.rs:67-216 | in every run of any number of nodes, filled slots are the origin's chunks, upcalls are the payloads, and each fragmented message is handed up once, when whole |
| `Meshes.AirIsTrue` | crates/noshtastic-link/src/outgoing.rs:201-251 | every packet of every run decodes to the true frame that was sent |
| `MeshHearing.CompleteIsHandedUp` | crates/noshtastic-link/src/link.rs:310-342 | from every reachable state, a complete message heard is added to what the client was handed, each time |
| `MeshHearing.OthersHandUpWhenComplete` | crates/noshtastic-link/src/link.rs:345-384 | a fragment hands up its payload exactly when it completes the message; requests and empty frames hand up nothing |
| `MeshHearing.QueuedFramesAreNamed` | crates/noshtastic-link/src/link.rs:410-419 | in every reachable state each queued frame bears the magic number and version and is queued under its own id |
| `MeshHearing.HeardLeavesQueues` | crates/noshtastic-link/src/link.rs:316-374 | in every run and interleaving, when a node is done with what it heard, none of its own copies of it is left in its queues |
| `MeshHearing.HeardIsDroppedExactly` | crates/noshtastic-link/src/link.rs:316-374 | with nothing in between, the hearing takes exactly the frames with that id out of both queues |
| `Meshes.RepairInAnyRun` | crates/noshtastic-link/src/link.rs:386-431 | from every reachable state of the mesh, answers of any nodes that all get through fill exactly what those nodes hold, and deliver exactly if that is the gap |
| `MeshRepair.RepairCompletes` | crates/noshtastic-link/src/link.rs:198-431 | from every reachable state with a request due at the clock, if other nodes between them hold the gap, steps of asking, queueing, sending and hearing alone, all at that clock reading, lead to the message being handed up, once; a steady clock stays steady |
| `MeshRepair.AnswerOnAir` | crates/noshtastic-link/src/link.rs:386-431 | a node that hears a request can get any held slot asked for on the air, even one its full queue refused at first |
| `MeshRepair.NeedAnsweredInOrder` | crates/noshtastic-link/src/link.rs:386-431 | a request makes a node offer exactly one high-priority frame for each slot asked for and held, in the order of the request |
| `MeshDelivery.ShortMessageReaches` | crates/noshtastic-link/src/link.rs:469-491 | from every reachable state a message of up to 200 bytes sent once at one node can reach the client of any other |
| `MeshDelivery.LongMessageReaches` | crates/noshtastic-link/src/link.rs:493-531 | from every reachable state a longer message sent once can reach, whole and once, the client of any other node that does not know it, with a request a minute later, however small the queues |
| `MeshHistory.EntryLasts` | crates/noshtastic-link/src/fragcache.rs:67-216 | over any steps of any run an entry keeps its first sight, its completion and every slot it holds |
| `MeshHistory.CompletesIffHeard` | crates/noshtastic-link/src/link.rs:345-384 | in every continuation of every run a message is completed and handed up once if every missing slot is heard, and only then unless the node sends it itself |
| `MeshHistory.NeverHandedUpAgain` | crates/noshtastic-link/src/fragcache.rs:104-130 | once handed up at a node, a fragmented message is never handed up there again, whoever sends it again |
| `MeshHistory.AskWindowCloses` | crates/noshtastic-link/src/fragcache.rs:144-146 | on a steady clock a node asks for nothing of a message from 300 seconds after its first sight on |
| `Policies.ThresholdsOrdered` | crates/noshtastic-sync/src/sync.rs:49-59 | for every positive data rate the refill threshold is at least 1 and below the pause threshold, and the send pause is at least 1 ms |
| `Policies.PauseFitsQueueIff` | crates/noshtastic-sync/src/sync.rs:53-57 | the pause threshold is within one queue's maximum exactly from 0.0528 kbps up |
| `Policies.PauseAlwaysReachable` | crates/noshtastic-link/src/outgoing.rs:38-44 | one queue's true bound, its maximum plus one, reaches the pause threshold at every rate |
| `Policies.PresetsAreSafe` | crates/noshtastic-link/src/lib.rs:245-255 | all of this on every radio preset |
| `SyncController.PoisonedIffUnconvertible` | crates/noshtastic-sync/src/sync.rs:381-382 | the sync lock is poisoned exactly when a compact note has been heard whose id, key, signature, tags or packed strings do not convert |
| `SyncController.SilentAfterPanic` | crates/noshtastic-sync/src/sync.rs:296-297 | nothing is sent after such a note |
| `SyncController.ShortIdSilences` | crates/noshtastic-sync/src/sync.rs:381-382 | a compact note with an id of 31 bytes ends all sending, whatever comes before and after |
| `SyncController.ProperNotesNeverPoison` | crates/noshtastic-sync/src/encoded_note.rs:22-89 | compact notes made of proper events never poison the lock |
| `SyncController.PausedIffCongested` | crates/noshtastic-sync/src/sync.rs:137-157 | sync is paused exactly when the last length report was at or above the pause threshold |
| `SyncController.NothingSentWhilePaused` | crates/noshtastic-sync/src/sync.rs:126-350 | while the last length report is at or above the pause threshold no exchange is started and a negentropy message is answered by nothing at all |
| `SyncController.AnsweredInFull` | crates/noshtastic-sync/src/sync.rs:327-350 | below the threshold, before any panic, the answer is the next message at the following level, if reconciling gave one, and then each wanted note in order |
| `SyncController.OthersSendLittle` | crates/noshtastic-sync/src/sync.rs:120-201 | the ready signal and heard notes send nothing, a length report or local note one thing at most |
| `SyncController.StartsExactlyWhenQuiet` | crates/noshtastic-sync/src/sync.rs:161-200 | a length report sends a start exactly when no handler has panicked, the link was ready, notes and negentropy have been quiet for their idle times, few frames are queued and a start could be composed, and else nothing |
| `SyncController.StartDisplacesNothing` | crates/noshtastic-sync/src/sync.rs:485-505 | the start of an exchange displaces nothing queued |
| `SyncController.OneNegentropyLevel` | crates/noshtastic-sync/src/sync.rs:497-504 | all negentropy frames in a well-formed high queue have one level |
| `SyncController.RepliesAreAboveStarts` | crates/noshtastic-sync/src/sync.rs:339-343 | a reply's level is above 0 except after level 2^32 - 1 |
| `SyncController.RecentIsWindow` | crates/noshtastic-sync/src/sync.rs:357-400 | the recent set is the window over the ids of the notes taken over |
| `SyncController.RelaysIff` | crates/noshtastic-sync/src/sync.rs:240-257 | a local note is relayed exactly when its id is not among the last twenty ids heard while absent |
| `SyncController.JustHeardIsHeldBack` | crates/noshtastic-sync/src/sync.rs:357-400 | after any events, a raw UTF-8 note or a convertible compact note just heard is not relayed |
| `SyncController.BadRawIsForgotten` | crates/noshtastic-sync/src/sync.rs:376-378 | a raw note that is not UTF-8 makes no difference to what is relayed |
| `SyncController.NoEcho` | crates/noshtastic-sync/src/sync.rs:240-257 | once heard, raw and UTF-8 or compact and convertible, however often, a note is held back exactly while fewer than twenty others have been newly heard since its own last new hearing, which always exists |
| `SyncController.EchoAfterHearingAgain` | crates/noshtastic-sync/src/sync.rs:240-257 | after a note, nineteen others, the note again and one other, the note is echoed |
| `SyncController.Sync.HandleInfo` | crates/noshtastic-sync/src/sync.rs:126-201 | the chain of early returns decides as the run model does |
| `SyncController.Sync.HandleNegentropy` | crates/noshtastic-sync/src/sync.rs:320-350 | the handler answers as the run model does, and not at all while paused |
| `SyncController.Sync.HandleNote` | crates/noshtastic-sync/src/sync.rs:357-400 | a heard note is timed, and remembered when taken over; a compact note that does not convert poisons the lock |
| `SyncController.Sync.RelayNote` | crates/noshtastic-sync/src/sync.rs:240-257 | a local note is sent unless recently heard |
| `LruSets.DequeIsWindow` | crates/noshtastic-sync/src/lruset.rs:24-37 | the deque is the last capacity effective insertions, without duplicates |
| `LruSets.PresentIff` | crates/noshtastic-sync/src/lruset.rs:24-37 | every id ever inserted has a last insertion that found it absent, and is present exactly while fewer than capacity such insertions came after that |
| `LruSets.StaysForCapacityOthers` | crates/noshtastic-sync/src/lruset.rs:24-37 | an id stays until exactly capacity other absent ids have been inserted, and is gone then, even if it was inserted again in between |
| `LruSets.NotRenewed` | crates/noshtastic-sync/src/lruset.rs:24-27 | inserting a present id again makes no difference to the deque after any later insertions |
| `LruSets.LruSet.Insert` | crates/noshtastic-sync/src/lruset.rs:24-37 | set and deque stay in step, and the deque moves as the window does |
| `LruSets.LruSet.Contains` | crates/noshtastic-sync/src/lruset.rs:39-41 | the hash set answers for the deque |
| `EncStrings.EncodeDecoded` | crates/noshtastic-sync/src/encoded_note.rs:91-105 | lower-case hex decoded and encoded again is the same text |
| `EncStrings.DecodeEncoded` | crates/noshtastic-sync/src/encoded_note.rs:143-148 | bytes encoded as hex and decoded again are the same bytes |
| `EncStrings.HexDigitsOfByte` | crates/noshtastic-sync/src/encoded_note.rs:143-148 | each byte becomes the digits of its value in base 16, the higher first |
| `EncStrings.EncodingChosen` | crates/noshtastic-sync/src/encoded_note.rs:125-141 | even, non-empty lower-case hex text becomes bytes, other text is compressed from 51 bytes of UTF-8 on and kept below |
| `EncStrings.WidthIsLeast` | crates/noshtastic-sync/src/encoded_note.rs:130-130 | a character counts as the least number of bytes UTF-8 has room for it in |
| `EncStrings.OnlyPackedCanFail` | crates/noshtastic-sync/src/encoded_note.rs:143-155 | only packed text can fail to be read, and what is not set reads as nothing |
| `EncStrings.DecodeEncode` | crates/noshtastic-sync/src/encoded_note.rs:125-155 | every string survives encoding |
| `EncStrings.EncodeInjective` | crates/noshtastic-sync/src/encoded_note.rs:125-141 | different strings have different encodings |
| `EncStrings.EncodeDecodeIff` | crates/noshtastic-sync/src/encoded_note.rs:125-155 | re-encoding the text of an encoded string returns it exactly when it is canonical |
| `EncNotes.ConvertsIff` | crates/noshtastic-sync/src/encoded_note.rs:50-82 | a compact note converts exactly when its id has 32 bytes, its key is valid, its signature has 64 bytes, every string unpacks and every tag is valid |
| `EncNotes.KindsAlias` | crates/noshtastic-sync/src/encoded_note.rs:57-57 | kinds that differ by a multiple of 65536 give the same event |
| `EncNotes.NoContentIsEmpty` | crates/noshtastic-sync/src/encoded_note.rs:63-66 | a note without content gives the event of one with empty content |
| `EncNotes.EventRoundTrip` | crates/noshtastic-sync/src/encoded_note.rs:22-82 | an event converted to its compact form and back is the same event |
| `EncNotes.ToEncNoteInjective` | crates/noshtastic-sync/src/encoded_note.rs:22-48 | different events have different compact forms |
| `EncNotes.NoteRoundTripIff` | crates/noshtastic-sync/src/encoded_note.rs:50-82 | a received note is reproduced exactly when its strings are canonical, it has content and its kind fits 16 bits |
| `RepeatedStarts.RepeatedStartIsLost` | crates/noshtastic-sync/src/sync.rs:485-490 | two starts over the same data have one id, so a cache that handed up the first never hands up the second |

## Left out

- Radio drivers, the Meshtastic stream, configuration, Android, the command line, the relay and the test gateway: input and output.
- Protobuf, brotli, SHA-256, secp256k1 and nostr tag parsing: parameters, with only their round trip or validity assumed.
- The negentropy algorithm and nostrdb: their results are parameters of the sync events; how a random rotation orders needed notes is a parameter too.
- Ids with several payloads: in the mesh each id has one payload. That leaves out hash collisions, pings and pongs, whose ids are constant, and negentropy messages with the same data at different levels, since the id hashes the data without the level; fragments of two such messages would share one cache entry.
- Rounding of 32-bit floats: data rates and thresholds are reals, rounded half away from zero.
- Payloads of more than 200 * (2^32 - 1) bytes, whose fragment count would not fit 32 bits.
- Overflow of clock arithmetic: readings are unbounded naturals.
- All-or-nothing queueing of a fragmented message: the regulator may take fragments while later ones are still being queued, and a full queue refuses some.
- Once-only delivery of unfragmented messages: the source does not filter duplicates there.
- Dropping of stale packets in the mesh: it is a case of losing them; the ready gate models its effect on readiness.
- Ping and pong, logging, formatting, shutdown signals.
- RepairRound: assumes every answer gets through the responders' queues and the air; a full queue may refuse some, which is then a lossy round.
- RepairInAnyRun: likewise, and the answers are heard beside the mesh; RepairCompletes takes every step within it.
- RepairCompletes: says that some continuation succeeds, a long answer possibly by hearing the request again; for every continuation, CompletesIffHeard says what it takes.
- SendLinkMessage: states the outcome when no frame is taken while it runs; the mesh model covers the interleavings.
- HandleLinkFrame: likewise states the queues when no frame is taken while it runs; HeardLeavesQueues covers every interleaving.
- EveryWaitEnds: is about lock scopes only and assumes that a task that can move eventually does.

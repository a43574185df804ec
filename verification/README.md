# Store-and-forward mesh engine: verified model

This project models the parts of the mesh engine that hold state over unbounded runs, and the parts
that re-implement a simple specification efficiently, and proves what they are for.

| file | models |
|---|---|
| `Bytes.dfy` | octets, fixed-width integers, facts about sequences used everywhere |
| `Wire.dfy` | the padded wire codec of gossip events and its cursor reader |
| `WireLayout.dfy` | where each field of an encoded event lies, and how it is written |
| `Utf8.dfy` | which octets are text |
| `Gossip.dfy` | the gossip outbox, its known ids and its per-peer delivery logs |
| `GossipTight.dfy` | why no shorter delivery log would do, for any outbox |
| `Heal.dfy` | two nodes draining catch-up batches into each other |
| `Framing.dfy` | TCP framing and the incremental frame reader |
| `OutQueue.dfy` | the bounded outbound queue and its writers |
| `Pump.dfy` | the pump from the outbox to that queue, over whole runs |
| `Encounter.dfy` | the spatial index of the simulator: naive, bucketed and multi-tier |
| `Dtn.dfy`, `DtnRuns.dfy` | the delay-tolerant router: one buffer, and whole networks |
| `Spam.dfy`, `Abuse.dfy`, `Admission.dfy` | sliding-window budget, decaying abuse level, the admission gate |
| `Social.dfy`, `Arrivals.dfy`, `SocialRuns.dfy` | posts, comments and the replay of comments that arrived early; what arrives; whole runs |
| `Update.dfy`, `UpdateReceiver.dfy`, `UpdateRuns.dfy` | signed updates: formats and chunks, protocol object, node handlers |
| `Trust.dfy` | the web of trust |
| `Geohash.dfy` | geohash bisection and the sharded message store |

Code that updates fields is a class whose methods are proved against functions and relations on values;
what the system promises is then proved about those, over every run. Time is a parameter, as in the code.
Rust strings on the wire are their UTF-8 octets. Hashing, signatures and compression are function values
of which nothing is assumed. `f64` and Python floats are `real`.

## Where documentation and code differ

The model follows the code.

- `unpad(pad(x)) == x` is documented for all `x` (core/src/crypto/mod.rs:514); it holds exactly when `x`
  does not end in a zero octet (`Wire.UnpadPad`). The decoder does not unpad, so the wire is unaffected.
- core/src/network/tcp.rs:69-72 says a padded wire never exceeds 16,384 octets; it does when the encoding
  does (`Pump.OversizedIsLongFields`). While such an event stays unlogged in the outbox the pump hands
  that peer nothing that came after it (`Pump.OversizedStayBlocks`).
- core/src/protocol/mod.rs:726 calls the eviction of known ids FIFO; it follows the arbitrary order of a
  hash set: any ids outside the outbox, as many as overflow, may go (`Gossip.ExpiryIsAnyChoice`), so with two
  to choose from it need not be the older (`Gossip.ExpiryIsNotFifo`).
- core/src/update/mod.rs:32 says the manifest must carry the announced version; it carries none, and the
  code compares the hash alone (`UpdateReceiver.UpdateProtocol.HandleManifest`).
- core/src/network/tcp.rs:703-707 says a frame that cannot be encoded is counted; it is only logged. The
  branch is unreachable (`OutQueue.OutboundQueue.Written`).
- core/src/reputation/mod.rs:378 takes a remote report's own date as the clock. Dated between the last update
  and now, a report never lowers the level seen (`Abuse.TimelyReportLowersNothing`); dated before or after, it
  can erase it (`Abuse.UntimelyReportsErase`); `Abuse.ReportLowersNothing` says exactly when it does not.
- core/src/network/tcp.rs:440-444 says enqueueing never blocks. The eviction loop ends if and only if the
  configured capacity is at least one (`OutQueue.EvictionEnds`); with capacity 0, `EnqueueOutbound` asks for a
  payload that is refused before the loop.
- core/src/social_store.rs:425-428 says the replay covers every chain. A scan reads 256 rows, so comments that
  cannot be stored yet may keep ready ones behind them waiting (`SocialRuns.ReplayStalls`), exactly when
  `Social.ReplayFallsShort` says; and it looks in one post, so a comment that answers one of another post is
  missed when its parent comes last (`SocialRuns.ParentLastIsMissed`).

## Model

| member | source | states |
|---|---|---|
| Wire.DecodeExact | core/src/protocol/mod.rs:481-523 | a buffer decodes to an event if and only if it is not all zeros and begins with the unpadded encoding of that event, which must be encodable; nothing after it matters |
| Wire.WireRoundTrip | core/src/protocol/mod.rs:442-523 | encoding, padding and decoding give the event back if and only if its hex is canonical, it has at most 10,000 tags, lengths fit 32 bits, and it is not the all-zero record |
| Wire.DecodeIgnoresSuffix | core/src/protocol/mod.rs:470-481 | any suffix, zero or not, leaves the decoded event unchanged, and no buffer starts with the encodings of two events |
| Wire.ZeroEventOnly | core/src/protocol/mod.rs:481-490 | exactly one encodable event has an all-zero encoding |
| Wire.KindFromCode | core/src/protocol/mod.rs:526-555 | kind codes and kinds correspond one to one; every other code is an error |
| Wire.HexEncodeIsCanonical | core/src/protocol/mod.rs:559-579 | encoded hex is lower-case and decodes to the octets it came from |
| Wire.LowerHexIsEncoded | core/src/protocol/mod.rs:559-579 | lower-case hex of the right length decodes and re-encodes to itself |
| Wire.TakeTagsSound | core/src/protocol/mod.rs:497-504 | a list of tags read from a buffer is exactly the list whose encoding was consumed |
| Wire.TakeTagsComplete | core/src/protocol/mod.rs:497-504 | an encoded list of tags is read back whole, leaving what follows |
| Wire.TakeEventSound | core/src/protocol/mod.rs:481-523 | whatever event is read, its encoding is what was consumed |
| Wire.TakeEventComplete | core/src/protocol/mod.rs:481-523 | an encodable event is read back from its encoding, leaving what follows |
| Wire.BucketFor | core/src/crypto/mod.rs:499-506 | the loop finds the smallest bucket that holds the length, or the largest bucket |
| Wire.Pad | core/src/crypto/mod.rs:515-522 | data followed by zeros up to its bucket, never truncated |
| Wire.Unpad | core/src/crypto/mod.rs:530-536 | the backwards loop removes exactly the trailing zeros |
| Wire.UnpadPad | core/src/crypto/mod.rs:508-536 | unpadding undoes padding if and only if the data does not end in a zero; padded lengths are buckets if and only if the data fits the largest one |
| Wire.UnpadIsIdempotent | core/src/crypto/mod.rs:524-536 | unpadding twice is unpadding once |
| Wire.ToWireBytes | core/src/protocol/mod.rs:442-467 | the appending writer produces the padded encoding, or the hex error |
| Wire.WireReader.TakeBytes | core/src/protocol/mod.rs:594-605 | the cursor returns the next octets and moves past them, or reports truncation |
| Wire.WireReader.TakeString | core/src/protocol/mod.rs:625-630 | a length-prefixed string is read, with truncation and bad UTF-8 reported |
| Wire.ReadTags | core/src/protocol/mod.rs:497-504 | the tag loop agrees with the decoding function in value, rest and error |
| Wire.FromWireBytes | core/src/protocol/mod.rs:481-523 | the cursor-based reader returns exactly what the decoding function does, errors included |
| WireLayout.FieldsInPlace | core/src/protocol/mod.rs:428-463 | id, key, time, kind code and tag count lie at octets 0, 32, 64, 72 and 73 of the encoding and the tags at 77; before the last 74 octets come the content and its length, and in those the signature, the nonce, the difficulty and the lifetime; the length is 155 and the tags and the content |
| WireLayout.TagsInOrder | core/src/protocol/mod.rs:453-457 | a tag is its length in four octets and its text, and tags keep their order |
| WireLayout.KindsInOrder | core/src/protocol/mod.rs:225-252 | the 22 kinds are coded in the order they are declared |
| WireLayout.HexReadsExactly | core/src/protocol/mod.rs:559-579 | a text decodes to given octets if and only if, in small letters, it is how they are encoded |
| WireLayout.HexDigits | core/src/protocol/mod.rs:493-505 | an octet is written as the digit of its upper half and that of its lower half |
| WireLayout.LengthIsTruncated | core/src/protocol/mod.rs:453-458 | cutting a length to 32 bits leaves its four low octets |
| Bytes.LittleEndianAt | core/src/protocol/mod.rs:451-463 | octet i of a little-endian number counts its 256 to the i |
| Bytes.BigEndianMirrors | core/src/network/tcp.rs:78-89 | a big-endian number has the same octets in the opposite order |
| Utf8.TextExact | core/src/protocol/mod.rs:625-630 | octets are valid text if and only if some sequence of code points, surrogates and anything above 0x10FFFF excluded, encodes to them |
| Utf8.PointsUnique | core/src/protocol/mod.rs:625-630 | and only one does |
| Gossip.AtMostOncePerStay | core/src/protocol/mod.rs:717-791 | in every run of insertions and peek-then-mark calls no stay in the outbox is handed twice to a peer, outbox ids are distinct and known, and all three structures are within their limits |
| Gossip.InOutboxImpliesInLog | core/src/protocol/mod.rs:645-646 | pigeonhole: a stay still in the outbox that was handed to a peer is still in that peer's evicting log |
| Gossip.RunKeepsInv | core/src/protocol/mod.rs:717-847 | the joint invariant of outbox, known ids and logs holds after every run |
| Gossip.InsertKeepsInv | core/src/protocol/mod.rs:717-738 | an insertion, with whatever ids the expiry removes, keeps the joint invariant |
| Gossip.HandKeepsInv | core/src/protocol/mod.rs:757-791 | handing any prefix of a peeked batch keeps the joint invariant |
| Gossip.InsertKeepsOutbox | core/src/protocol/mod.rs:717-738 | an insertion keeps outbox ids distinct and known |
| Gossip.ExpiryMeetsBound | core/src/protocol/mod.rs:822-847 | expiry removes exactly the overflow and never an outbox id |
| Gossip.ExpiryIsAnyChoice | core/src/protocol/mod.rs:822-847 | what expiry may remove is any set of ids outside the outbox as large as the overflow, and nothing else |
| Gossip.ExpiryIsNotFifo | core/src/protocol/mod.rs:726-729 | when one id must go and two may, either may be the one |
| Gossip.MarkedIsLastN | core/src/protocol/mod.rs:777-791 | marking keeps exactly the last ids ever marked, up to the limit |
| Gossip.PicksProperties | core/src/protocol/mod.rs:757-775 | the stays offered are those in the outbox, in order, whose ids are not logged |
| Gossip.GossipProtocol.InsertNew | core/src/protocol/mod.rs:717-738 | a known id changes nothing; a new one is appended, the oldest outbox entry making room, and known ids expire |
| Gossip.GossipProtocol.ExpireOldKnown | core/src/protocol/mod.rs:822-847 | in any iteration order, ids outside the outbox go until the bound is met |
| Gossip.GossipProtocol.PeekPendingForPeer | core/src/protocol/mod.rs:757-775 | the first events not in the peer's log, at most the given number, without marking |
| Gossip.GossipProtocol.MarkDeliveredToPeer | core/src/protocol/mod.rs:777-791 | the ids enter the peer's log one by one, each evicting the oldest when full |
| Gossip.GossipProtocol.GetPendingForPeer | core/src/protocol/mod.rs:745-750 | peeking without a bound and marking all of it |
| Gossip.GossipProtocol.TakeHealBatch | core/src/node/mod.rs:1680-1690 | peeking at most 32 events and marking all of them |
| GossipTight.PerPeerBoundIsTight | core/src/protocol/mod.rs:639-646 | for every outbox, log and larger number of known ids: no run ever hands one stay twice to a peer if and only if the log holds at least twice the outbox minus one |
| GossipTight.PlayedIsReachable | core/src/protocol/mod.rs:717-791 | any order of insertions and deliveries in which every stay is handed when it is offered is a run, with the oldest known id expiring |
| Heal.Receive | core/src/protocol/mod.rs:704-738 | receiving a batch makes nothing else known, and all of it while what is known fits one outbox; a batch of known ids changes nothing |
| Heal.SelectProperties | core/src/protocol/mod.rs:757-775 | a batch has distinct ids, none of them logged, and is empty only when everything pending is logged |
| Heal.SessionStep | core/src/node/mod.rs:1680-1690 | within one drain each further batch repeats no id of the drain and none of the recent log |
| Heal.Drain | core/src/node/mod.rs:1680-1690 | draining batch by batch terminates, sends distinct ids, and leaves nothing pending |
| Heal.DrainedReceiverKnowsAll | core/src/node/mod.rs:1680-1690 | once a sender is drained its receiver knows every id the sender knows |
| Heal.DrainPair | core/src/node/mod.rs:1680-1690 | a drain inside a pair gives the receiver the union, repeats no id of the recent log, and sends nothing if and only if nothing was pending |
| Heal.Exchange | core/src/node/mod.rs:1680-1690 | after one drain each way both nodes know the union |
| Heal.Settle | core/src/node/mod.rs:1680-1690 | after an exchange one more drain may echo; every later one is empty, however many follow |
| Heal.NoSecondCrossing | core/src/node/mod.rs:1680-1690 | the echo repeats no id the first drain sent |
| Heal.Reconcile | core/src/node/mod.rs:1680-1690 | whole catch-up: both know the union, no id crosses a direction twice, from the fourth drain on nothing crosses |
| Framing.EncodeFrame | core/src/network/tcp.rs:78-89 | the four-octet length and the payload, or an error when oversized |
| Framing.ParseFrameExact | core/src/network/tcp.rs:144-214 | a stream begins with a frame of a payload if and only if parsing yields that payload, for lengths 1 to 16,384 |
| Framing.CleanStreamExact | core/src/network/tcp.rs:144-214 | a stream is read as given payloads and a clean end if and only if it is their frames in a row |
| Framing.CutStream | core/src/network/tcp.rs:144-214 | a stream cut inside a frame yields the complete frames and then a truncation |
| Framing.HeaderDecides | core/src/network/tcp.rs:144-214 | a header is refused if and only if its octets declare zero or more than 16,384, as soon as it is there; else the frame is the declared octets after it, once they are |
| Framing.StreamEnds | core/src/network/tcp.rs:144-214 | a stream is its frames and a rest: it ends cleanly, truncated or refused if and only if the rest is empty, an incomplete frame or a refused header |
| Framing.FrameReader.Poll | core/src/network/tcp.rs:144-214 | one poll, over any schedule of partial reads, timeouts and faults, continues the parse of what was buffered and what is still to come; it is pending if and only if it met a timeout, and failed if and only if it met a fault, neither of which it reads past |
| Framing.FrameReader.AcceptHeader | core/src/network/tcp.rs:144-214 | header octets are buffered, and refused only when they declare a length of zero or above the limit |
| Framing.ReadFrames | core/src/network/tcp.rs:566-593 | for every split of the stream into reads, with timeouts and faults anywhere: it ends in failure if and only if it met a fault, and then the frames are those complete before it; otherwise frames and end are those of the stream |
| Framing.FramesThen | core/src/network/tcp.rs:566-593 | a stream that begins with the frames of given payloads is read as those payloads and then as what follows them |
| OutQueue.OutboundQueue.constructor | core/src/network/tcp.rs:451-453 | a peer's queue starts empty |
| OutQueue.OutboundQueue.EnqueueOutbound | core/src/network/tcp.rs:445-464 | refused if and only if oversized; otherwise appended after dropping exactly the oldest frames beyond the capacity |
| OutQueue.EvictionEnds | core/src/network/tcp.rs:454-461 | dropping frames ever makes room if and only if the capacity is at least one |
| OutQueue.DropsOneByOne | core/src/network/tcp.rs:454-461 | each drop takes the front, if there is one |
| OutQueue.OutboundQueue.PopNext | core/src/network/tcp.rs:691-701 | a writer takes the front frame; nothing is lost or duplicated |
| OutQueue.OutboundQueue.Written | core/src/network/tcp.rs:702-711 | a frame taken can always be framed, and is then accounted as sent |
| OutQueue.OutboundQueue.WriteFailed | core/src/network/tcp.rs:712-721 | a frame whose write failed returns to the front |
| OutQueue.BooksPush | core/src/network/tcp.rs:461 | appending keeps every frame in one place, and one writer's frames in order |
| OutQueue.BooksDrop | core/src/network/tcp.rs:455-460 | dropping the front keeps the accounts and the order |
| OutQueue.BooksPop | core/src/network/tcp.rs:691-701 | taking the front keeps the accounts and, with one writer, the order |
| OutQueue.BooksSend | core/src/network/tcp.rs:708-711 | sending keeps the accounts and the order, and the frame is within the frame limit |
| OutQueue.BooksRequeue | core/src/network/tcp.rs:712-721 | requeueing at the front keeps the accounts and, with one writer, the order |
| OutQueue.OneWriterSendsInOrder | core/src/network/tcp.rs:685-727 | with one writer the payloads sent are a subsequence of those enqueued, despite drops and requeues |
| OutQueue.EveryFrameIsAccounted | core/src/network/tcp.rs:445-464 | every payload enqueued is in exactly one place: sent, dropped, being written or queued, and the counters add up |
| OutQueue.TwoWritersReorder | core/src/network/tcp.rs:685-727 | with two writers a run sends the second frame before the first |
| Pump.QueueBatch | core/src/network/tcp.rs:843-866 | the loop queues exactly the wire forms before the first oversized one, counting unencodable events as done |
| Pump.WiresExact | core/src/network/tcp.rs:843-866 | what is queued for a batch are the wire forms of those of its events that can be encoded, in order |
| Pump.FlushPeer | core/src/network/tcp.rs:834-871 | exactly the peeked events before the first oversized one are marked delivered and queued |
| Pump.OversizedStayBlocks | core/src/network/tcp.rs:851-857 | over any run of insertions and passes for any peers, while an oversized unlogged stay is in the outbox its peer is handed no later stay |
| Pump.PassesReachOversized | core/src/network/tcp.rs:834-871 | without insertions, n passes log exactly the first unlogged events, 64 a pass, up to the first oversized one |
| Pump.PumpingIsComplete | core/src/network/tcp.rs:834-871 | enough passes leave unlogged exactly the first oversized event and those behind it, so nothing if and only if none was oversized |
| Pump.PumpingEnds | core/src/network/tcp.rs:834-871 | from any state satisfying the joint invariant, more passes without insertions than the outbox holds leave nothing unlogged, or an oversized event and what follows it |
| Pump.PumpingEmpties | core/src/network/tcp.rs:834-871 | from any such state they log everything if no pending event is oversized, and only if every oversized one was logged before |
| Pump.RunsArePumpable | core/src/protocol/mod.rs:639-646 | every state a run reaches has room in the log for that, unless the log still lists a pending id from an earlier stay |
| Pump.HandedSurvives | core/src/protocol/mod.rs:645-646 | pigeonhole: what was handed of the outbox stays logged while all the rest of it is handed |
| Pump.OversizedIsLongFields | core/src/protocol/mod.rs:442-467 | an event is oversized if and only if it encodes and 155 octets, its content and its tags at four octets each exceed 16,384 |
| Pump.LongContentIsOversized | core/src/network/tcp.rs:69-72 | an encodable event without tags and n letters of content is oversized if and only if n is at least 16,230 |
| Pump.OversizedEventExists | core/src/network/tcp.rs:69-72 | some encodable event is oversized |
| Encounter.EncounterPairsNaive | simulation/mesh_sim.py:629-650 | the double loop lists exactly the pairs within the larger range, in order |
| Encounter.RowIsExact | simulation/mesh_sim.py:629-650 | the reference row holds exactly the later indices in range, increasing |
| Encounter.EncounterPairsBucketed | simulation/mesh_sim.py:652-708 | the grid over the largest range gives the same list in the same order whenever no range is below the negated cell side, in particular for positive ranges |
| Encounter.EncounterPairsTiered | simulation/mesh_sim.py:712-824 | the multi-tier index gives the same list in the same order for every list of positions |
| Encounter.HitsAreAdjacent | simulation/mesh_sim.py:674-692 | two positions within the cell side lie in the same or neighbouring cells, floors of negative coordinates included |
| Encounter.StrictlyIncreasingUnique | simulation/mesh_sim.py:712-824 | a strictly increasing list is determined by its elements, so sorted and deduplicated candidates give the reference order |
| Encounter.RowIsDetermined | simulation/mesh_sim.py:699-707 | filtering any sorted cover of the hits gives the reference row |
| Encounter.WindowSuffices | simulation/mesh_sim.py:684-696 | the three-by-three window contains every hit |
| Encounter.TiersCover | simulation/mesh_sim.py:712-824 | the candidates of all tiers together contain every hit |
| Encounter.GatherCandidates | simulation/mesh_sim.py:712-824 | one sweep over the tiers collects exactly the later indices in each tier's window |
| Encounter.SortTiers | simulation/mesh_sim.py:712-824 | the ranges in use, each once, strictly ascending |
| Encounter.SortSet | simulation/mesh_sim.py:712-824 | sorting a candidate set yields its elements, strictly increasing |
| Encounter.BuildGrid | simulation/mesh_sim.py:672-682 | every index is in exactly the bucket of its cell |
| Encounter.EncountersExact | simulation/mesh_sim.py:629-650 | the list names every pair of positions that meet, once, the earlier first, in lexicographic order of the indices, and no other |
| Encounter.HitOnALine | simulation/mesh_sim.py:629-650 | two positions in a row meet if and only if their distance is at most the larger of their ranges |
| Encounter.TurningKeepsEncounters | simulation/mesh_sim.py:647 | turning all positions by any angle changes no encounter |
| Encounter.ShiftingKeepsEncounters | simulation/mesh_sim.py:647 | moving all positions alike changes no encounter |
| Dtn.WorstIndex | core/crates/dtn-router/src/lib.rs:276-290 | the loop finds the first of the oldest among the least urgent messages |
| Dtn.DtnRouter.Store | core/crates/dtn-router/src/lib.rs:86-121 | stored, replacing the worst, or rejected; buffers stay bounded and every message is accounted for |
| Dtn.StoreExact | core/crates/dtn-router/src/lib.rs:86-121 | a full buffer gives up the first of the oldest among its least urgent messages for a more urgent one, and is otherwise unchanged; the new message goes to the end |
| Dtn.DtnRouter.Collect | core/crates/dtn-router/src/lib.rs:215-271 | what is kept, handed over and expired, per message, with the counters |
| Dtn.DtnRouter.Encounter | core/crates/dtn-router/src/lib.rs:124-144 | both directions in turn, the second on the buffers the first left; conservation and bound kept |
| Dtn.DtnRouter.Tick | core/crates/dtn-router/src/lib.rs:158-195 | exactly the messages with at most one tick left expire, the others age by one |
| Dtn.RemoveIndices | core/crates/dtn-router/src/lib.rs:175-178 | removing ascending indices from the back equals filtering them out |
| Dtn.RemovalIsKept | core/crates/dtn-router/src/lib.rs:265-267 | in-place marking and removal leaves exactly the filtered and updated buffer |
| Dtn.RemovalIsTicked | core/crates/dtn-router/src/lib.rs:165-182 | removal followed by ageing leaves exactly the aged buffer |
| Dtn.ForwardingConserves | core/crates/dtn-router/src/lib.rs:225-268 | an encounter loses exactly the messages that die and the unicast messages handed over |
| Dtn.CollectConserves | core/crates/dtn-router/src/lib.rs:215-271 | the network total drops by exactly those messages and bounds are kept |
| Dtn.TickOfOne | core/crates/dtn-router/src/lib.rs:158-195 | a message with at most one tick left expires as it is; another has one less |
| Dtn.TicksApart | core/crates/dtn-router/src/lib.rs:158-195 | a tick treats each message by itself, in order |
| Dtn.LifetimeInTicks | core/crates/dtn-router/src/lib.rs:158-195 | n ticks leave exactly the messages with more than n ticks to live, each n older |
| Dtn.LeavesAtItsTick | core/crates/dtn-router/src/lib.rs:158-195 | a message left alone with t ticks to live leaves at exactly the t-th |
| Dtn.ServedIsDuplicateFree | core/crates/dtn-router/src/lib.rs:198-203 | the list of served peers stays free of duplicates and forgets nobody |
| Dtn.EncounterWithOne | core/crates/dtn-router/src/lib.rs:225-258 | a message at its hop limit goes; its addressee takes a unicast message over, one hop older, and another leaves it as it is; a broadcast is copied to a peer not yet served, and both are listed as served |
| Dtn.EncounterWithEach | core/crates/dtn-router/src/lib.rs:225-268 | an encounter treats each message by itself, in order |
| Dtn.UnicastIsDelivered | core/crates/dtn-router/src/lib.rs:231-243 | a unicast message below its hop limit is handed to its addressee, and none addressed to it is kept |
| DtnRuns.RunsAreLoopless | core/crates/dtn-router/src/lib.rs:86-271 | in every run of a network no copy visits a node twice or is handed to one peer twice; its hop count is its path length and within the TTL |
| DtnRuns.HandingArrives | core/crates/dtn-router/src/lib.rs:215-271 | in any network, whoever meets the addressee of a message it holds, or a peer a broadcast has not reached, hands it a copy |
| DtnRuns.InjectedArrives | core/crates/dtn-router/src/lib.rs:86-271 | after any run, a unicast message that its node accepts is handed to its addressee when the two next meet, in either order of the two directions |
| DtnRuns.StepsFollowRouter | core/crates/dtn-router/src/lib.rs:86-195 | forgetting paths, the steps of those runs are the router's own operations |
| DtnRuns.NextFollowsRouter | core/crates/dtn-router/src/lib.rs:86-195 | each step of a run is the router's store, encounter, store on restoring, or tick |
| DtnRuns.HandingIsRecorded | core/crates/dtn-router/src/lib.rs:239-258 | a copy that stays records that it was handed to a peer if and only if it was |
| DtnRuns.HandedCopyOk | core/crates/dtn-router/src/lib.rs:239-250 | a copy handed over extends its path without revisiting |
| DtnRuns.KeptCopyOk | core/crates/dtn-router/src/lib.rs:251-258 | the copy kept records whom it was handed to, once |
| DtnRuns.EvictionRefinesSorting | core/crates/dtn-router/src/lib.rs:86-121 | after any sequence of stores the kept priorities are those of sorting all offers and truncating |
| DtnRuns.StoreAllKeepsSmallest | core/crates/dtn-router/src/lib.rs:86-121 | the kept priorities are the k smallest of all offered |
| DtnRuns.KSmallestUnique | core/crates/dtn-router/src/lib.rs:86-121 | at most one multiset is the k smallest |
| Spam.SpamGuard.AdmitWithBudget | core/src/reputation/spam.rs:261-284 | admits if and only if fewer stamps than the budget are left in the window; as long as time does not go back, if and only if fewer than the budget of all the author's admissions since its last eviction lie in the window; what is recorded afterwards, exactly, and whose record goes: beyond 1,024 authors one whose last admission is oldest |
| Spam.SpamGuard.Admit | core/src/reputation/spam.rs:253-255 | the same with the ordinary budget |
| Spam.SpamGuard.EvictOldest | core/src/reputation/spam.rs:289-301 | forgets one author whose last admission is oldest, none when all are at the end of time |
| Spam.FindOldest | core/src/reputation/spam.rs:289-298 | in any iteration order the search finds an author with the oldest last admission |
| Spam.Prune | core/src/reputation/spam.rs:266-269 | the loop removes exactly the leading stamps older than the horizon |
| Spam.WindowIsCounted | core/src/reputation/spam.rs:261-270 | the admissions counted in a window are those of the log with a time in it |
| Spam.PrunedIsWindow | core/src/reputation/spam.rs:261-270 | the stamps kept are exactly the full log's share of the window |
| Spam.LastStampIsLastAdmission | core/src/reputation/spam.rs:289-298 | the last stamp kept is the time of the last admission |
| Spam.NoWindowOverBudget | core/src/reputation/spam.rs:261-284 | no closed window of the guard's length, wherever it starts, holds more admissions than the budget in force at one of them |
| Abuse.ExcessIsBounded | core/src/reputation/spam.rs:148-177 | over H whole hours fewer than 5 + H/20 rate charges, whatever other violations and foldings intervene; the level stays in [0, 1] |
| Abuse.LevelPaysForExcess | core/src/reputation/spam.rs:148-177 | the level is above 0.2 per rate charge less the recovery since the first entry |
| Abuse.FoldingDelaysByAnHour | core/src/reputation/mod.rs:305-313 | folding early never lowers the level seen later and delays recovery by at most one hour each time |
| Abuse.IgnoredAfterThree | core/src/reputation/spam.rs:133-143 | three rate charges within an hour reach the ignore threshold |
| Abuse.Sanctions | core/src/reputation/spam.rs:102-152 | charges of one kind weigh 30, 10, 20 or 10 hundredths by reason, up to 100, and recover one an hour; the author is throttled from 15, put last from 40 and ignored from 80 |
| Abuse.ExcessIsCounted | core/src/node/mod.rs:1472-1497 | the rate charges counted are those of the history |
| Abuse.ReportLowersNothing | core/src/reputation/mod.rs:374-378 | for every record, date of a report and present time: the exact condition under which the report leaves the level seen no lower |
| Abuse.TimelyReportLowersNothing | core/src/reputation/mod.rs:374-378 | a report dated between the last update and now lowers nothing |
| Abuse.UntimelyReportsErase | core/src/reputation/mod.rs:374-378 | a full level falls to zero through a report dated before the last update, and to 0.1 through one dated ahead |
| Admission.Gate.AdmitPeerEvent | core/src/node/mod.rs:1456-1502 | the decision in the order of the checks, whatever the times; a rate limit, and nothing else, charges the author; in order, the budget counts all admissions of the window |
| Admission.Gate.RecordViolation | core/src/reputation/mod.rs:280-283 | the charge on top of the decayed level, in [0, 1]; the bounds on charges survive unless a rate is charged at or above the ignore threshold or time goes back |
| Admission.Gate.FoldAbuseDecay | core/src/reputation/mod.rs:305-313 | the decayed level is written back; no record, no change |
| Admission.Gate.NotePeerTraffic | core/src/node/mod.rs:1628-1646 | a contact ending a suspected partition opens a grace; openings stay at least 300 seconds apart |
| Admission.SuspectPartition | core/src/node/mod.rs:1651-1657 | suspected if and only if some peer is known and all were silent for 300 seconds |
| Admission.ContactKeepsOpenings | core/src/node/mod.rs:1628-1646 | consecutive grace openings are at least 300 seconds apart |
| Admission.ChargesAreBounded | core/src/node/mod.rs:1472-1497 | along any run of the gate an author has fewer than 5 + H/20 rate charges |
| Admission.OverBudgetOnlyInGrace | core/src/node/mod.rs:1486-1491 | a window never holds more than 48 admissions, and more than 12 only if one was made in a grace |
| Admission.GateWithinBudget | core/src/node/mod.rs:1456-1502 | that holds of every author never evicted, in every state of a gate whose clock never went back |
| Social.SocialStore.InsertPost | core/src/social_store.rs:218-242 | a new post is stored and its waiting comments replayed |
| Social.SocialStore.InsertComment | core/src/social_store.rs:330-411 | stored if and only if its post is there and its parent is absent, empty or stored; the row keeps its id, post, author and body, and its parent with an empty one read as none; then replayed, or buffered with its time of writing |
| Social.SocialStore.Buffer | core/src/social_store.rs:381-404 | nothing is dropped up to 1,024 waiting; beyond, the first by time of writing and id |
| Social.SocialStore.PromoteOrphanComments | core/src/social_store.rs:429-491 | the replay loop terminates having stored exactly the least set of waiting comments of the post that holds each one whose parent is stored or in it and which has fewer than 256 others before it |
| Social.SocialStore.Pass | core/src/social_store.rs:457-486 | one pass stores, in the order of the scan, each comment whose parent is stored by then |
| Social.SocialStore.Scan | core/src/social_store.rs:434-452 | a scan returns exactly the first 256 waiting comments of the post by time of writing and id, in that order |
| Social.EarlierIsByTime | core/src/social_store.rs:434-452 | a scan goes by time of writing, and by id among equals |
| Social.LessIsByLetters | core/src/social_store.rs:434-452 | ids are compared as text: the first letter that differs decides, and a text comes after its beginnings |
| Social.ReplayKeepsGood | core/src/social_store.rs:425-491 | a replay keeps the stored comments least and leaves none ready among the first 256 waiting for the post |
| Social.LeftBehind | core/src/social_store.rs:437-438 | a comment left waiting although its parent is stored has at least 256 before it |
| Social.ReplayFallsShort | core/src/social_store.rs:429-491 | a replay stores less than it would without the limit of 256 if and only if the buffer it starts from has a part each of whose comments, once ready, has 256 outside of what could be stored before it |
| Social.BlockedIsLeftBehind | core/src/social_store.rs:437-438 | 256 comments before it whose parents are neither stored nor waiting leave a comment behind, ready or not |
| Social.PromoteOne | core/src/social_store.rs:470-484 | storing a ready waiting comment keeps the stored ones the least closed set so far |
| Social.ForgetOrphan | core/src/social_store.rs:396-403 | dropping a waiting comment never orphans a stored one, and unsettles its own post only |
| Social.StoredIsLeastFixpoint | core/src/social_store.rs:319-491 | with at most 256 comments waiting for a post and no row lost since its replay, the stored ones are the least set closed under "post present and parent absent or stored" if and only if no waiting comment of an arrived post answers a stored one of another post |
| SocialRuns.Play | core/src/social_store.rs:218-491 | for every sequence of posts and comments with new ids, at any times: every comment is stored or waiting with the fields it came with, or dropped; if after each arrival the fixpoint leaves at most 1,024 comments, and 256 to a post, and its comments answer within their posts, none is dropped and in the end exactly the fixpoint is stored and the rest waits; if none is dropped the fixpoint never left more than 1,024 |
| SocialRuns.FewArriveFewWait | core/src/social_store.rs:396-403 | at most 1,024 comments in all and 256 to a post meet those bounds in every order |
| Arrivals.UnreadyLeavesFixpoint | core/src/social_store.rs:380-404 | a comment that is not ready leaves the fixpoint as it was |
| Arrivals.ArrivalOrderIsIrrelevant | core/src/social_store.rs:319-428 | the fixpoint and the rest are the same for every order and timing of the same arrivals |
| SocialRuns.ParentLastIsMissed | core/src/social_store.rs:408-410 | in every run in which a comment's parent is of another post and arrives last, the comment is not stored, though it may belong to the fixpoint; it waits unless the buffer overflowed |
| Arrivals.BadOrderExists | core/src/social_store.rs:408-410 | if the fixpoint has a comment that answers outside its post, the same arrivals have an order in which its parent comes last |
| SocialRuns.ReplayStalls | core/src/social_store.rs:437-438 | a run in which 256 comments that are not ready keep a ready one waiting |
| Update.AnnouncementExact | core/src/update/mod.rs:181-240 | announcements are parsed exactly: one octet string each |
| Update.AnnouncementLayout | core/src/update/mod.rs:181-240 | where the fields of an announcement lie |
| Update.ManifestLayout | core/src/update/mod.rs:248-297 | where the fields of a manifest lie; what is signed ends before the size |
| Update.ManifestExact | core/src/update/mod.rs:248-297 | manifests are parsed exactly: one octet string each |
| Update.ChunkBounds | core/src/update/mod.rs:483-498 | an index is below the chunk count if and only if its chunk is not empty; the last chunk ends the file |
| Update.ChunkRefused | core/src/update/mod.rs:571-600 | a chunk is refused if and only if it would begin beyond the file, is longer than a chunk or would reach beyond the file; the first one of an index stays |
| Update.TrueChunkAccepted | core/src/update/mod.rs:571-600 | a true chunk is never refused, whatever came before; after true chunks it is recorded |
| Update.FeedNeverFails | core/src/update/mod.rs:571-600 | no order or repetition of true chunks is refused |
| Update.TransferRoundTrip | core/src/update/mod.rs:483-689 | cutting an APK and feeding all chunks in any order with any repetition assembles exactly the APK |
| Update.TransferExact | core/src/update/mod.rs:571-671 | whatever chunks arrive, the file is assembled if and only if for every index the first chunk within the limits is the file's own |
| Update.AssemblyExact | core/src/update/mod.rs:651-671 | chunks within the limits join to the file if and only if each is the file's own |
| Update.FullTransferIsFinal | core/src/update/mod.rs:571-600 | a transfer holding every index never changes again, so a wrong one stays stuck until another manifest |
| Update.NewerIsGreater | core/src/update/mod.rs:112-118 | major outweighs minor and minor outweighs patch |
| UpdateReceiver.UpdateProtocol.HandleAnnouncement | core/src/update/mod.rs:506-520 | accepted if and only if well-formed, signed by the root and newer |
| UpdateReceiver.UpdateProtocol.HandleManifest | core/src/update/mod.rs:528-564 | accepted if and only if signed, of the announced hash and within the limits; replaces any transfer |
| UpdateReceiver.UpdateProtocol.HandleChunk | core/src/update/mod.rs:571-600 | index and size checks, duplicates ignored, state otherwise unchanged |
| UpdateReceiver.UpdateProtocol.AssembleAndVerify | core/src/update/mod.rs:633-689 | incomplete keeps the transfer, complete consumes it; success if and only if the content hashes to the signed hash |
| UpdateReceiver.UpdateProtocol.InstallVerified | core/src/update/mod.rs:701-737 | installs only the verified content, once; the current version becomes the largest installed |
| UpdateReceiver.NewTransferCarries | core/src/update/mod.rs:538-560 | an accepted manifest starts a transfer of any file as long as it says |
| UpdateReceiver.SortOrders | core/src/update/mod.rs:726-732 | sorting by version orders any list and loses nothing |
| UpdateReceiver.Assemble | core/src/update/mod.rs:651-671 | the loop joins the chunks in order or reports the transfer incomplete |
| UpdateRuns.UpdateNode.OnUpdateAnnounce | core/src/node/mod.rs:1132-1151 | an accepted announcement is remembered; anything else changes nothing |
| UpdateRuns.UpdateNode.OnUpdateManifest | core/src/node/mod.rs:1153-1180 | a transfer starts only for the remembered announcement |
| UpdateRuns.UpdateNode.OnUpdateChunk | core/src/node/mod.rs:1184-1238 | refuses, asks for the next, or completes; the version changes only with an install and strictly upwards |
| UpdateRuns.TrueTransferCompletes | core/src/node/mod.rs:1184-1238 | when the signed hash is that of a file, feeding its chunks in any order completes the transfer with exactly that file |
| UpdateRuns.InstallsAreAuthorised | core/src/node/mod.rs:1132-1238 | every install of a run hashes to an announcement signed by the root that was newer when accepted, and versions strictly rise |
| UpdateRuns.CommitIsSafe | core/src/update/mod.rs:701-737 | installing what is verified keeps every promise of the run |
| UpdateRuns.NewestGoesLast | core/src/update/mod.rs:726-732 | a newer version sorts last and becomes current |
| Trust.ReputationSystem.Endorse | core/src/reputation/mod.rs:110-160 | accepted if and only if from another, trusted node for the first time; no score drops; the new score depends on the endorsers trusted now; with no score set by hand meanwhile, trust is gained exactly with the third endorsement |
| Trust.ReputationSystem.ApplyRemoteEndorsement | core/src/reputation/mod.rs:171-185 | the same behind a verified signature, with the same new score |
| Trust.QualifiedIsCounted | core/src/reputation/mod.rs:141-154 | the endorsers counted are those whose score is now at least 0.7 |
| Trust.ClampIsNearest | core/src/reputation/mod.rs:88-91 | a score set by hand becomes the nearest in [0, 1] |
| Trust.ReputationSystem.Bootstrap | core/src/reputation/mod.rs:81-85 | exactly the founders' scores are set, which makes them seeds |
| Trust.ReputationSystem.SetTrusted | core/src/reputation/mod.rs:88-91 | the clamped score decides whether a node is a seed; after the first endorsement trust is no longer grounded |
| Trust.ReputationSystem.CountQualified | core/src/reputation/mod.rs:141-154 | the count of endorsers trusted now |
| Trust.RaisedIsLeast | core/src/reputation/mod.rs:133-157 | an endorsement lifts a score to half the endorser's, and with three that qualify to 0.7, and no further |
| Trust.EndorsementKeepsGrounded | core/src/reputation/mod.rs:110-160 | every trusted node is a seed or has three distinct endorsers trusted before its own promotion; a node that is no seed is trusted if and only if it has three endorsements |
| Trust.TwoSeedsPromoteNobody | core/src/reputation/mod.rs:110-185 | with at most two seeds the trusted set never changes |
| Geohash.PositionToGeohash | core/src/storage/mod.rs:227-277 | the bit-by-bit loop computes the interleaved bisection bits in base 32 |
| Geohash.CellShrinks | core/src/storage/mod.rs:238-256 | cells nest and a point inside stays inside |
| Geohash.CellWidth | core/src/storage/mod.rs:238-256 | the width halves with every bit |
| Geohash.SameCellSameBits | core/src/storage/mod.rs:238-256 | two points share their first n bits if and only if they share the cell |
| Geohash.HashNamesCell | core/src/storage/mod.rs:227-277 | two points share an n-letter hash if and only if they share the cell |
| Geohash.SharedPrefixIsClose | core/src/storage/mod.rs:227-277 | points sharing n letters differ by at most 360/2^ceil(5n/2) in longitude and 180/2^floor(5n/2) in latitude |
| Geohash.HalvedIsDivision | core/src/storage/mod.rs:238-256 | halving n times divides by 2^n |
| Geohash.ShorterIsPrefix | core/src/storage/mod.rs:227-277 | a shorter hash is a prefix of a longer one |
| Geohash.CellIsHalfOpen | core/src/storage/mod.rs:238-256 | a cell holds its lower end and not its upper one |
| Geohash.DecodedHoldsPoint | core/src/storage/mod.rs:227-277 | reading a geohash back, letter by letter and bit by bit, gives a cell of the stated width that holds the point |
| Geohash.ShouldStoreLocally | core/src/storage/mod.rs:716-734 | counting common letters decides whether the required prefix is shared; critical always, zero prefix never |
| Geohash.KeptIsNear | core/src/storage/mod.rs:585-639 | a non-critical message kept comes from within the bound of the node's prefix length |
| Geohash.NeighbourhoodByPolicy | core/src/storage/mod.rs:585-639 | that is within 360/8192 and 180/4096 degrees on a phone, 360/1024 and 180/1024 on a computer, 360/256 and 180/128 on a gateway |
| Geohash.BudgetByPolicy | core/src/storage/mod.rs:520-526 | the budgets are 2 to the 26, 31 and 34 octets |
| Geohash.TieredMessageStore.Store | core/src/storage/mod.rs:619-662 | kept if and only if new, within the budget and local; ids stay distinct and the budget holds |
| Geohash.TieredMessageStore.SweepExpired | core/src/storage/mod.rs:691-711 | exactly the unexpired messages remain, in order, and the budget still holds |
| Geohash.KeptForItsTier | core/src/storage/mod.rs:474-481 | a message is kept for 7 days, 2 days, 6 hours or 1 hour from its creation, by tier |
| Geohash.SweepsApart | core/src/storage/mod.rs:691-711 | each message stays or goes by itself, and the budget adds up their sizes |
| Geohash.SweepKeepsDistinct | core/src/storage/mod.rs:691-711 | sweeping keeps one copy per id |

## Left out

- Sockets, threads, locks, accept and dial loops: the reader meets a socket as a schedule of partial reads, timeouts and faults; the queue meets its writers as steps under its lock.
- Cryptography, proof of work, Deflate: function values without assumed laws; `validate` of events before insertion is not modelled.
- SQLite: tables are maps and sets; times of writing are whatever its clock says.
- Social.SocialStore.InsertPost: the post is new, because replacing it deletes its comments by cascade, or fails, as the database decides.
- Social.SocialStore.InsertComment: the comment is neither stored nor waiting yet, because replacing rows depends on the database's foreign keys.
- Social.SocialStore.Buffer: as for `InsertComment`.
- OutQueue.OutboundQueue.EnqueueOutbound: a payload that fits is not offered to a queue of capacity 0, for which the code never returns (`OutQueue.EvictionEnds`).
- Pump.QueueBatch: not for a queue of capacity 0, for the same reason.
- Pump.FlushPeer: not for a queue of capacity 0, for the same reason.
- Pump.PassesReachOversized: as for `PumpingIsComplete`.
- Gossip.GossipProtocol.ExpireOldKnown: which ids go follows the arbitrary order of a hash set.
- Encounter.EncounterPairsBucketed: ranges below the negated cell side are excluded; the fixed table of radio profiles holds positive ranges only.
- Floating-point rounding, in scores, coordinates and positions alike.
- DtnRuns.RunsAreLoopless: once a buffer was aged, the bound on the hop count is the TTL the copy started with, since ageing lowers the TTL itself.
- Dtn messages: the message type and the JSON form, which the router never inspects.
- Update messages inside gossip events (base64, tags) and the requests the node publishes between steps.
- Trust.EndorsementKeepsGrounded: nothing is claimed once a score was set by hand after the first endorsement, for that grants or withdraws trust without endorsers.
- Spam.NoWindowOverBudget, Admission.ChargesAreBounded: nothing is claimed once the injected time went back, which the code does not check.
- Pump.PumpingIsComplete: asks that no pending id is logged because of an earlier stay; such an id is offered only once the log has dropped it, and may then be the oversized one that blocks. `Pump.PumpingEnds` covers every state.
- GossipTight.PerPeerBoundIsTight: a log limit of 0, which keeps one entry, is left out.
- Heal.Reconcile: the union of what both nodes know fits one outbox, and nothing is marked delivered that the peer does not know.
- `record_install`, `record_activity`, `penalize`, `restore`: they change versions, scores or messages outside the protocols modelled, and the theorems do not hold through them.
- `apply_remote_abuse_report` beyond its clock: who may report, and the bounded table of reports seen.
- `get_pending_for_peer_wire`, inbound queue, health endpoint, metrics, identity rotation, votes, follows, ZK mock, maps, random traffic and movement of the simulator: easy or outside the engine.

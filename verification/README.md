# Router laboratory: a verified model of its protocol owners

The repository is a real-time network emulator. Its protocol owners are single-owner state machines
with explicit bounds, all-or-nothing operations and relative-time checkpoints. This project models
twelve of them in Dafny 4.11 and proves what they are for: what every run keeps, what a batch changes,
which fast form agrees with which simple one, and where the code departs from its own promise.

`dafny verify dfyconfig.toml` checks the whole project.

| file | models |
|---|---|
| `WireTime.dfy` | how long a frame occupies the wire, in 64-bit arithmetic |
| `BoundedQueue.dfy`, `LinkDirection.dfy` | the ring queue and one Ethernet direction over it |
| `FabricSlab.dfy`, `Fabric.dfy` | the multi-link fabric: linked lists in one slab, the packet pool, conservation of frames |
| `Ipv6Packet.dfy`, `Ipv6Fragmentation.dfy`, `Ipv6Reassembly.dfy` | IPv6 source fragmentation and reassembly |
| `IpsecReplay.dfy` | the anti-replay window with extended sequence numbers |
| `Ikev2Exchange.dfy` | the window-1 request/response exchange over an unreliable network |
| `IpsecSad.dfy`, `ChildSa.dfy`, `ChildSaProtocol.dfy`, `ChildSaOwners.dfy` | the SAD, the IKE SA owner, both shards together, and the timers and limits of one owner |
| `RelayRoutes.dfy`, `RelayOwners.dfy`, `RelayRuns.dfy` | DHCPv6 relay leases, the routes derived from them, and whole runs of both |
| `NsecOrder.dfy`, `Nsec.dfy`, `NsecZone.dfy` | canonical name order, NSEC chains, denial proofs, and what these prove of a whole zone |
| `NeighborEntries.dfy`, `NeighborIndex.dfy` | the IPv6 Neighbor Cache and its hash index |
| `Persistence.dfy` | the incremental project store of the web application |
| `StreamDecoder.dfy` | the length-framed TCP decoders of DHCPv4 Leasequery and failover |
| `IpsecConfiguration.dfy` | the IPsec configuration validators |
| `Options.dfy` | the option type the modules share |

State that the source changes in place is a class whose methods are proved against functions on values;
the run theorems are about those functions. Loops of the source are loops here.

## Where the code and its promise differ

Each of these is proved, and so is the exact condition under which the promise holds.

- An IPv6 datagram whose extension headers do not fit the first fragment is fragmented but can never be
  reassembled, because the first fragment does not parse (`RoundTrip`, `LongOptionsAreLost`).
- Popping by deadline leaves a due frame behind exactly when deadlines decrease along the queue, which
  lowering the propagation delay between two admissions brings about (`PromptExactlyWhenSorted`,
  `LoweredPropagationBlocks`).
- Retransmission back-off is capped doubling except when doubling lands one millisecond below the
  maximum (`BackoffIsCappedDoubling`, `BackoffSkipsOne`).
- A requester that reuses an answered Message ID can match the late answer to the earlier request, from
  every state (`ReuseAlwaysMisleads`, `ReuseMatchesWrongRequest`; `MatchedMeansExecuted` without reuse).
- A zero low word is called admissible, and then refused by commit, while the highest extended sequence
  is below the window width (`AdmissibleMeansCommittable`, `ZeroIsCalledAdmissible`).
- The SAD replaces entries by id, so a pair installation that reuses one id of another pair leaves a half
  pair; it does not exactly when every pair overlaps the new ids wholly or not at all
  (`InstallPairKeepsPairs`, `HalfPairExample`).
- The liveness poll can leave Established while an installation is pending; then the acknowledgement is
  refused, the pair stays in the SAD and the IKE SA can never close (`StrandedForever`,
  `StrandedPairStays`, `PollStrands`, `DeletionFinishes`).
- The incremental relay routes keep a stale prefix-exclude blackhole when a renewal changes or drops the
  excluded prefix, and lose one when two leases exclude the same prefix (`StepMatchesRebuild`,
  `StaleBlackhole`, `SharedBlackhole`, and for whole runs `RunMatchesExactly`).
- A lease batch that assigns before it withdraws can stop half way at a full repository although its final
  size fits (`CommitCompletes`, `LateWithdrawalIsRefused`).
- A renewal moves its routes to the end, so the repository's own route checkpoint is refused by restore
  unless the leases with routes were last installed in the order in which they stand (`RunRestorable`,
  for one renewal `RenewalRestorable`, `RenewalExample`).
- NSEC name-error proofs deny every name below a delegation, most empty non-terminals, and what a wildcard
  without records of its own would answer for; and they prove nothing directly below the root. They are
  right for all names of a zone exactly when no cut leaves room for a name below it and the wildcard
  conditions of `Provable` hold (`ZoneProvedExactly`, `DelegatedIsDenied`, `EmptyNonTerminalIsDenied`,
  `EmptyWildcardIsDenied`, `DelegationExample`, `EmptyNonTerminalExample`, `RootZoneExample`).
- A neighbor batch that succeeds may already have replaced a neighbor it learned itself; whether it does
  is decided by a counter of places known before the batch (`BatchKeepsExactly`, `BatchMayReplaceItself`).
- Sending fails exactly without a free medium node (`TransmitOne`). While no frame is shared a queued frame
  always finds one; with sharing it may not (`QueuedFrameFindsNode`, `SharingExhaustsNodes`).
- Without the promise chain an older save that finishes late revives a removed object
  (`UnchainedRevives`; `RunIsSequential` with the chain).
- A failover stream decoder that met an illegal length cannot be restored from its own checkpoint
  (`FailoverRestores`, `FailedFailoverExample`).

## Model

| member | source | states |
|---|---|---|
| `BoundedQueues.WrapIsModulo` | core/include/router/bounded_queue.hpp:22-68 | stepping an index and resetting it at the capacity is the remainder, for every in-range index |
| `BoundedQueues.PushExtends` | core/include/router/bounded_queue.hpp:22-31 | writing the tail cell of a ring that is not full appends to its contents and disturbs none of them, also across the wrap |
| `BoundedQueues.PopDrops` | core/include/router/bounded_queue.hpp:33-42 | advancing the head removes exactly the oldest element |
| `BoundedQueues.BoundedQueue.TryPush` | core/include/router/bounded_queue.hpp:22-31 | fails exactly when full and then changes nothing; otherwise the contents gain the value at the end |
| `BoundedQueues.BoundedQueue.TryPop` | core/include/router/bounded_queue.hpp:33-42 | returns the oldest element and leaves the rest; nothing when empty |
| `BoundedQueues.BoundedQueue.TryPeek` | core/include/router/bounded_queue.hpp:44-51 | returns the oldest element and changes nothing |
| `BoundedQueues.BoundedQueue.CopyAt` | core/include/router/bounded_queue.hpp:61-68 | returns the element at an offset from the oldest, and nothing beyond the end |
| `BoundedQueues.BoundedQueue.Clear` | core/include/router/bounded_queue.hpp:70-75 | empties the queue |
| `WireTime.DurationIsExact` | core/include/router/link_direction.hpp:169-175 | the 64-bit computation equals the integer ceiling of the ideal time exactly when its numerator does not wrap |
| `WireTime.CatalogIsExact` | core/include/router/link_direction.hpp:169-175 | for every frame size and speed of the catalog nothing wraps |
| `WireTime.ExactTiming` | core/include/router/link_direction.hpp:67-87 | delivery and spacing times cover preamble, padded frame, FCS and gap, with less than one nanosecond of rounding each |
| `LinkDirections.LinkDirection.TryTransmit` | core/include/router/link_direction.hpp:67-87 | in place it does what the transition function does; a refusal leaves all state unchanged, so the late refusal cannot happen |
| `LinkDirections.AdmittedTimes` | core/include/router/link_direction.hpp:67-87 | an admitted frame starts at the later of now and the free transmitter; it arrives after exactly preamble, frame, FCS and propagation, and the transmitter is free after the gap as well |
| `LinkDirections.LinkDirection.PopDelivered` | core/include/router/link_direction.hpp:89-101 | delivers only the front, only when due, and only that |
| `LinkDirections.LinkDirection.TakeCheckpoint` | core/include/router/link_direction.hpp:115-138 | saves remaining times, overdue ones and an idle transmitter as zero |
| `LinkDirections.LinkDirection.Restore` | core/include/router/link_direction.hpp:140-159 | rebuilds queue and transmitter relative to the new instant; refuses a sequence that is too long |
| `LinkDirections.StepShifts` | core/include/router/link_direction.hpp:67-159 | one event on time-shifted directions gives time-shifted outcomes and keeps them time-shifted, clamped deadlines included |
| `LinkDirections.RestoreResumesRun` | core/include/router/link_direction.hpp:115-159 | a direction restored at n' from a checkpoint at n answers every later run as the original would, moved by n'-n, with handles renamed |
| `LinkDirections.FifoConservation` | core/include/router/link_direction.hpp:67-101 | over every run, handles in flight before plus admitted equal delivered plus in flight after, in order, within capacity |
| `LinkDirections.DeadlinesStayOrdered` | core/include/router/link_direction.hpp:67-101 | while propagation never decreases, deadlines in flight strictly increase over every run |
| `LinkDirections.PromptExactlyWhenSorted` | core/include/router/link_direction.hpp:89-101 | popping until false leaves no due frame at any instant if and only if deadlines never decrease along the queue |
| `LinkDirections.SteadyRunsArePrompt` | core/include/router/link_direction.hpp:53-101 | every run with non-decreasing propagation can be drained promptly at every instant |
| `LinkDirections.LoweredPropagationBlocks` | core/include/router/link_direction.hpp:53-58 | lowering propagation between two admissions leaves a due frame behind |
| `LinkDirections.StartsAreSpaced` | core/include/router/link_direction.hpp:72-83 | consecutive starts of a run at a fixed rate are at least the exact frame time apart, and no more than rounded when backlogged |
| `LinkDirections.LineRate` | core/include/router/link_direction.hpp:67-87 | n admissions never exceed the line rate, and a backlogged run takes less than the ideal time plus n nanoseconds |
| `IpsecReplay.ReconstructIsUnique` | core/src/security/ipsec_replay.cpp:23-55 | reconstruction returns the one representable sequence with these low bits in the 2^32-wide range from the window bottom, if and only if there is one |
| `IpsecReplay.CheckAnswersForTrueSequence` | core/src/security/ipsec_replay.cpp:57-73 | in every mode, from the first packet on: check reconstructs the true sequence if and only if it is in range, and then answers what the set of committed sequences says |
| `IpsecReplay.CommitRefinesSet` | core/src/security/ipsec_replay.cpp:75-98 | commit accepts exactly the acceptable sequences, and the bitmap then represents the set with that sequence added, no bit outside the width |
| `IpsecReplay.FreshTracksNothing` | core/src/security/ipsec_replay.cpp:11-14 | a new window represents the empty set |
| `IpsecReplay.RestoreTracks` | core/src/security/ipsec_replay.cpp:100-111 | an accepted restore represents exactly the sequences its bitmap records, none outside the width |
| `IpsecReplay.RestoreRoundTrip` | core/src/security/ipsec_replay.cpp:100-111 | restoring a window's own values is accepted and gives it back |
| `IpsecReplay.AdmissibleMeansCommittable` | core/src/security/ipsec_replay.cpp:57-98 | an admissible candidate is refused by commit if and only if numbers are extended, the low word is zero, the highest is below the width and no restored bit records sequence zero |
| `IpsecReplay.ZeroIsCalledAdmissible` | core/src/security/ipsec_replay.cpp:57-73 | after one packet a zero low word is called admissible |
| `IpsecReplay.NoSequenceTwice` | core/src/security/ipsec_replay.cpp:75-98 | over every run of commits the accepted sequences are pairwise distinct and new |
| `IpsecReplay.RunRefinesSet` | core/src/security/ipsec_replay.cpp:75-98 | over every run of commits the final window represents the starting set with exactly the accepted sequences added |
| `IpsecReplay.CheckAgreesOverRuns` | core/src/security/ipsec_replay.cpp:57-98 | so after any run from a new window check agrees with the set of sequences accepted in it |
| `IpsecReplay.ReplayWindow.CheckLow` | core/src/security/ipsec_replay.cpp:57-73 | computes the specified candidate and changes nothing |
| `IpsecReplay.ReplayWindow.CommitSequence` | core/src/security/ipsec_replay.cpp:75-98 | shifts and marks in place as specified |
| `IpsecReplay.ReplayWindow.RestoreState` | core/src/security/ipsec_replay.cpp:100-111 | replaces the state or leaves it |
| `IpsecReplay.OutboundSequence.Next` | core/src/security/ipsec_replay.cpp:113-120 | gives the successor until the last number, then nothing, never wrapping |
| `IpsecReplay.OutboundSequence.RestoreCurrent` | core/src/security/ipsec_replay.cpp:122-127 | accepts exactly representable values |
| `Ikev2Exchange.BackoffIsCappedDoubling` | core/src/security/ikev2_exchange.cpp:73-81 | the interval, which the source reaches by repeated doubling, is capped doubling if and only if doubling does not land one below the maximum; it is always positive and capped |
| `Ikev2Exchange.BackoffSkipsOne` | core/src/security/ikev2_exchange.cpp:73-81 | a policy and a resend count where the interval is not capped doubling |
| `Ikev2Exchange.RequestTracker.CurrentInterval` | core/src/security/ikev2_exchange.cpp:73-81 | the loop computes the specified interval; no value on the way exceeds the maximum, so nothing overflows |
| `Ikev2Exchange.StartedExactly` | core/src/security/ikev2_exchange.cpp:42-60 | when a request starts, and its first deadline |
| `Ikev2Exchange.ResponseExactly` | core/src/security/ikev2_exchange.cpp:62-71 | a response completes exactly the outstanding request; one to an earlier request is stale, any other unexpected |
| `Ikev2Exchange.RestoredExactly` | core/src/security/ikev2_exchange.cpp:128-150 | which checkpoints of a request are accepted, and what they restore |
| `Ikev2Exchange.ResponderRestoredExactly` | core/src/security/ikev2_exchange.cpp:183-215 | a responder checkpoint is accepted exactly when a responder can be in that state |
| `Ikev2Exchange.RequestTracker.StartRequest` | core/src/security/ikev2_exchange.cpp:42-60 | starts only when idle with a valid policy, and sets the first deadline |
| `Ikev2Exchange.RequestTracker.ReceiveResponseId` | core/src/security/ikev2_exchange.cpp:62-71 | matches only the outstanding Message ID, and then becomes idle |
| `Ikev2Exchange.RequestTracker.PollTimer` | core/src/security/ikev2_exchange.cpp:83-108 | resends on the deadline until the limit and then fails |
| `Ikev2Exchange.FirstTimer` | core/src/security/ikev2_exchange.cpp:42-60 | a started request is quiet exactly until the initial interval has passed |
| `Ikev2Exchange.NextTimer` | core/src/security/ikev2_exchange.cpp:83-108 | a resent request is quiet exactly until the doubled and capped interval has passed since the resend |
| `Ikev2Exchange.UnansweredFails` | core/src/security/ikev2_exchange.cpp:83-108 | polled at its due times, a request that nobody answers is resent exactly as often as the policy allows, with its ID and packet, and then fails |
| `Ikev2Exchange.RestoredTrackerResumes` | core/src/security/ikev2_exchange.cpp:115-150 | a tracker saved and restored at another instant resends and fails after the same delays as the original, over every sequence of polls |
| `Ikev2Exchange.ResponderMessageIds.ReceiveRequest` | core/src/security/ikev2_exchange.cpp:151-168 | new, cached, not ready or outside the window as specified |
| `Ikev2Exchange.ResponderMessageIds.CacheResponseToken` | core/src/security/ikev2_exchange.cpp:170-181 | completes only the pending request and advances the window by one |
| `Ikev2Exchange.AtMostOnce` | core/include/router/ikev2_exchange.hpp:50-131 | over a network that loses, duplicates and reorders, the i-th request reported new has Message ID i, all responses to one ID are the same, and resends stay within the limit |
| `Ikev2Exchange.ExchangeCompletes` | core/include/router/ikev2_exchange.hpp:50-131 | undisturbed, an exchange is executed once, answered, and its answer completes the very request |
| `Ikev2Exchange.LostAnswerIsRecovered` | core/include/router/ikev2_exchange.hpp:50-131 | when the answer is lost, the resend at the due time gets it again without a second execution |
| `Ikev2Exchange.MovesKeepTheExchange` | core/src/security/ikev2_exchange.cpp:115-215 | checkpointing and moving a party in the middle of a run keeps the exchange and the time left |
| `Ikev2Exchange.RunKeepsInvariants` | core/src/security/ikev2_exchange.cpp:42-181 | every move of the composed system keeps both parties' invariants |
| `Ikev2Exchange.MatchedMeansExecuted` | core/include/router/ikev2_exchange.hpp:50-131 | if Message IDs are not reused, every completed exchange was executed once, as the very request that was outstanding |
| `Ikev2Exchange.ReuseAlwaysMisleads` | core/src/security/ikev2_exchange.cpp:42-71 | from every state that keeps the invariants and has an idle requester, starting an answered Message ID with another token matches a packet that is never executed in any later run |
| `Ikev2Exchange.ReuseMatchesWrongRequest` | core/src/security/ikev2_exchange.cpp:42-71 | a reused Message ID is matched by the late answer to the earlier request |
| `Ipv6Packets.WalkBounds` | core/src/forwarding/packet.cpp:657-711 | the header walk never leaves the packet and only moves forward |
| `Ipv6Packets.ParseBounds` | core/src/forwarding/packet.cpp:621-718 | a parsed packet's payload and fragment header lie inside it |
| `Ipv6Packets.ParsesChain` | core/src/forwarding/packet.cpp:621-718 | a packet with a chain of well-sized extension headers parses, and its upper layer starts behind the chain |
| `Ipv6Packets.WalkMeansChain` | core/src/forwarding/packet.cpp:657-711 | and where the walk ends without a Fragment header it has passed such a chain |
| `Ipv6Packets.WalkPassesFragment` | core/src/forwarding/packet.cpp:657-711 | behind any chain, a Fragment header is reported with its identification, offset, flag and place; the walk goes on behind a first fragment and stops behind another |
| `Ipv6Fragmentation.FindInsertionPoint` | core/src/ip/ipv6_fragmentation.cpp:52-84 | the loop finds the end of the per-hop headers as specified, or refuses |
| `Ipv6Fragmentation.InsertionInOrder` | core/src/ip/ipv6_fragmentation.cpp:52-84 | for headers in the recommended order the Fragment header goes behind the Routing header, or behind Hop-by-Hop without one, and Destination Options stay in front only of a Routing header |
| `Ipv6Fragmentation.CutExactly` | core/src/ip/ipv6_fragmentation.cpp:86-118 | when a packet is cut at all |
| `Ipv6Fragmentation.LayoutIsTight` | core/src/ip/ipv6_fragmentation.cpp:86-118 | no fragment could carry eight octets more |
| `Ipv6Fragmentation.EmittedCount` | core/src/ip/ipv6_fragmentation.cpp:86-118 | the number of fragments emitted is the number announced |
| `Ipv6Fragmentation.FragmentFits` | core/src/ip/ipv6_fragmentation.cpp:146-202 | each fragment fits the MTU and starts on an 8-octet boundary |
| `Ipv6Fragmentation.FragmentDatagram` | core/src/ip/ipv6_fragmentation.cpp:153-202 | emits exactly the specified fragments in order, or none when there is no room |
| `Ipv6Fragmentation.FragmentBytes` | core/src/ip/ipv6_fragmentation.cpp:146-202 | every octet of a fragment is the datagram's, the fragment header's or the new length's |
| `Ipv6Fragmentation.FragmentParses` | core/src/ip/ipv6_fragmentation.cpp:146-202 | a fragment parses back to its offset, flag and identification; the first does if and only if the header chain fits it |
| `Ipv6Reassembly.ReassemblyTable.AcceptFrame` | core/src/ip/ipv6_fragmentation.cpp:292-402 | accepts, completes, unwraps, rejects or times out as the table function does |
| `Ipv6Reassembly.ReassemblyTable.Expire` | core/src/ip/ipv6_fragmentation.cpp:404-408 | clears exactly the entries whose time has passed |
| `Ipv6Reassembly.StoredPartial` | core/src/ip/ipv6_fragmentation.cpp:292-402 | storing a fragment adds exactly its octets, with their values |
| `Ipv6Reassembly.FinishedExactly` | core/src/ip/ipv6_fragmentation.cpp:292-402 | the entry is complete exactly when every fragment of the datagram has arrived |
| `Ipv6Reassembly.AssemblesOriginal` | core/src/ip/ipv6_fragmentation.cpp:268-290 | a complete entry assembles to the original datagram |
| `Ipv6Reassembly.FeedCollects` | core/src/ip/ipv6_fragmentation.cpp:292-408 | over every sequence of a datagram's fragments, at any times and with repeats, each report is that of collecting offsets in a set that a repeat or a timeout empties |
| `Ipv6Reassembly.RoundTrip` | core/src/ip/ipv6_fragmentation.cpp:146-402 | fragments of any legal MTU in any order before the timeout give the original back with the last one if and only if the header chain fits the first fragment; otherwise nothing completes |
| `Ipv6Reassembly.OverlapDiscards` | core/src/ip/ipv6_fragmentation.cpp:292-402 | any parsable frame under the key that brings an octet received before or past the known end makes the table forget the datagram, with Overlap, or Malformed when its headers differ |
| `Ipv6Reassembly.OverlapStartsOver` | core/src/ip/ipv6_fragmentation.cpp:292-408 | after such a frame no later feed completes before every fragment has arrived again, and each arriving once they deliver the datagram |
| `Ipv6Reassembly.ContradictionDiscards` | core/src/ip/ipv6_fragmentation.cpp:292-402 | so does a frame under the key with other headers, or one that calls itself last and ends where it cannot |
| `Ipv6Reassembly.UnfitFragmentRefused` | core/src/ip/ipv6_fragmentation.cpp:292-402 | a fragment without payload, unaligned in the middle or beyond the longest datagram is refused and changes nothing |
| `Ipv6Reassembly.OtherKeyUntouched` | core/src/ip/ipv6_fragmentation.cpp:292-402 | a frame under another key leaves every datagram that is being collected as it is |
| `Ipv6Reassembly.AtomicUnwraps` | core/src/ip/ipv6_fragmentation.cpp:302-321 | a fragment that is first and last at once comes back octet by octet without its header, the previous Next Header and the length rewritten and the rest padded, and disturbs no datagram |
| `Ipv6Reassembly.LongOptionsAreLost` | core/src/ip/ipv6_fragmentation.cpp:146-202 | a valid datagram whose headers do not fit the first fragment exists |
| `FabricSlab.TakePartition` | core/src/forwarding/multi_device_fabric.cpp:503-511 | taking a node from the free stack for a list keeps free stack and lists a partition of the slab |
| `FabricSlab.GivePartition` | core/src/forwarding/multi_device_fabric.cpp:513-519 | giving the head node back keeps the partition |
| `FabricSlab.AppendedValid` | core/src/forwarding/multi_device_fabric.cpp:186-220 | appending keeps every list linked from head to tail without cycles and leaves all other lists alone |
| `FabricSlab.DroppedValid` | core/src/forwarding/multi_device_fabric.cpp:236-255 | unlinking a head does as well |
| `FabricSlab.Slab.Append` | core/src/forwarding/multi_device_fabric.cpp:186-220 | appends one flight to one list, and fails exactly when no node is free |
| `FabricSlab.Slab.PopFront` | core/src/forwarding/multi_device_fabric.cpp:236-255 | removes and returns the oldest flight of one list |
| `FabricSlab.Slab.Front` | core/src/forwarding/multi_device_fabric.cpp:236-241 | returns the oldest flight, if any |
| `FabricSlab.Slab.InFlightCount` | core/src/forwarding/multi_device_fabric.cpp:503-519 | nodes not free are as many as flights in all lists |
| `Fabrics.LeaveBalances` | core/include/router/packet_pool.hpp:72-81 | a frame in a pipe holds a reference, and releasing it keeps every reference with one holder and every frame accounted for |
| `Fabrics.PublishBalances` | core/src/forwarding/multi_device_fabric.cpp:141-163 | handing a reference to a direction keeps the books |
| `Fabrics.DiscardBalances` | core/src/forwarding/multi_device_fabric.cpp:141-163 | giving a reference up keeps the books |
| `Fabrics.EnqueueOutcomes` | core/src/forwarding/multi_device_fabric.cpp:106-139 | allocate-and-publish admits one frame, retain-and-publish shares one, and either followed by giving up only counts a refusal |
| `Fabrics.ArrivalsInOrder` | core/src/forwarding/multi_device_fabric.cpp:192-210 | in every valid state, at every rate that is exact for the longest frame, the frames in flight of a direction have strictly increasing delivery times, and sending one more, whenever and of whatever size, keeps that |
| `Fabrics.FlightTimesExactly` | core/src/forwarding/multi_device_fabric.cpp:192-211 | delivery and spacing times are the exact ones rounded up if and only if the 64-bit numerators do not wrap; for rates of the catalog they do not |
| `Fabrics.SentFrameTimes` | core/src/forwarding/multi_device_fabric.cpp:192-211 | a frame sent starts at the later of now and the free transmitter and takes its exact time, the cable the propagation delay on top; an idle direction starts at once |
| `Fabrics.DirectionKeepsRate` | core/src/forwarding/multi_device_fabric.cpp:192-211 | over any rounds the frames of one direction take at least the exact time of all of them |
| `Fabrics.Fabric.TransmitOne` | core/src/forwarding/multi_device_fabric.cpp:186-220 | moves the oldest queued frame behind the newest in flight with its delivery time and occupies the transmitter; no pipe changes; fails exactly without a free node |
| `Fabrics.Fabric.Enqueue` | core/src/forwarding/multi_device_fabric.cpp:106-127 | each outcome with its exact cause; success appends the new frame to its pipe, a refusal is counted once and changes no pipe and no reference |
| `Fabrics.Fabric.EnqueueShared` | core/src/forwarding/multi_device_fabric.cpp:129-139 | one more reference enters the pipe, or exactly the reference taken is given back |
| `Fabrics.Fabric.EnqueueOwned` | core/src/forwarding/multi_device_fabric.cpp:141-163 | the caller's reference is queued or released |
| `Fabrics.Fabric.PumpTransmit` | core/src/forwarding/multi_device_fabric.cpp:177-225 | a transmit round changes no pipe, no reference and no count; each direction sends its oldest frame with its exact times or nothing; unless 64 were sent or no node is free, every direction with a queued frame sends |
| `Fabrics.Fabric.PumpDelivery` | core/src/forwarding/multi_device_fabric.cpp:227-276 | what the callback saw of each direction followed by its pipe is the pipe before, each frame with its own link and ports; a direction shows one frame only if one was received before or is due now, and every such direction does unless 64 were shown |
| `Fabrics.Fabric.DrainDirection` | core/src/forwarding/multi_device_fabric.cpp:473-501 | empties all three stages; every frame is released once and counted once; other directions are untouched |
| `Fabrics.Fabric.Remove` | core/src/forwarding/multi_device_fabric.cpp:77-89 | a live handle empties its link and makes the handle stale; a stale one changes nothing |
| `Fabrics.Fabric.SetCarrier` | core/src/forwarding/multi_device_fabric.cpp:91-104 | losing carrier drops exactly the frames of the link; any other call drops none |
| `Fabrics.Fabric.Configure` | core/src/forwarding/multi_device_fabric.cpp:40-75 | accepts exactly valid values; drops what the slot carried; invalid values change nothing |
| `Fabrics.Fabric.QueuedFrameFindsNode` | core/src/forwarding/multi_device_fabric.cpp:186-193 | while no frame is shared, a queued frame always finds a free node |
| `Fabrics.SharingExhaustsNodes` | core/src/forwarding/multi_device_fabric.cpp:106-139 | with a shared frame a run reaches a queued frame and no free node |
| `SecurityAssociations.InstallWhen` | core/src/security/ipsec_sad.cpp:79-109 | when a single installation succeeds |
| `SecurityAssociations.WellFormedMeans` | core/src/security/ipsec_sad.cpp:13-47 | what the checks let through, field by field and transform by transform |
| `SecurityAssociations.ValidAddressMeans` | core/src/security/ipsec_policy.cpp:76-88 | an IPv4 address sets its first four octets only |
| `SecurityAssociations.InstallPairReports` | core/src/security/ipsec_sad.cpp:111-150 | directions not negotiated together are refused at once; otherwise each report is that of its direction alone, and committed means both took |
| `SecurityAssociations.InstallPairIsAtomic` | core/src/security/ipsec_sad.cpp:111-150 | both directions are in force afterwards or nothing changed, and exactly when it succeeds |
| `SecurityAssociations.ErasePairIsAtomic` | core/src/security/ipsec_sad.cpp:152-184 | succeeds exactly when both directions are present and belong together, and removes exactly these two |
| `SecurityAssociations.InstallPairKeepsPairs` | core/src/security/ipsec_sad.cpp:111-150 | a committed installation leaves no half pair if and only if every pair shares no id or both with it |
| `SecurityAssociations.HalfPairExample` | core/src/security/ipsec_sad.cpp:111-150 | a committed installation that leaves half of another pair |
| `SecurityAssociations.EquallySpecificClash` | core/src/security/ipsec_sad.cpp:49-68 | two entries that match a packet equally well would share an identifier |
| `SecurityAssociations.Sad.Install` | core/src/security/ipsec_sad.cpp:79-109 | the search loops install exactly a well-formed entry that clashes with none and finds its id or room; the contents then hold it under its id and are otherwise unchanged |
| `SecurityAssociations.Sad.InstallPair` | core/src/security/ipsec_sad.cpp:111-150 | installs both or puts the previous entries back |
| `SecurityAssociations.Sad.ErasePair` | core/src/security/ipsec_sad.cpp:152-184 | the loops erase both ids when they are a pair of the contents, and nothing else; otherwise nothing |
| `SecurityAssociations.Sad.FindInbound` | core/src/security/ipsec_sad.cpp:196-214 | returns an inbound entry with the packet's SPI, protocol and every address it names, one that names the source if any such does, otherwise one that names the destination if any does; nothing exactly when none answers |
| `SecurityAssociations.Sad.FindOutboundForPolicy` | core/src/security/ipsec_sad.cpp:224-237 | returns the outbound entry of the policy and protocol that was created last, the larger id among equals; nothing exactly when there is none |
| `ChildSas.IkeSaOwner.StartInstall` | core/src/security/ikev2_sa.cpp:191-222 | one pending request at a time, within capacity plus rekey headroom, with a fresh request id |
| `ChildSas.IkeSaOwner.StartRekey` | core/src/security/ikev2_sa.cpp:172-189 | only for an active binding |
| `ChildSas.IkeSaOwner.FinishInstall` | core/src/security/ikev2_sa.cpp:224-260 | commits only the pending request, then binds the new pair and marks the replaced one |
| `ChildSas.IkeSaOwner.StartDelete` | core/src/security/ikev2_sa.cpp:262-287 | requests one removal and remembers the previous label |
| `ChildSas.IkeSaOwner.FinishDelete` | core/src/security/ikev2_sa.cpp:289-317 | forgets the binding only after an erased acknowledgement |
| `ChildSas.IkeSaOwner.FinishIke` | core/src/security/ikev2_sa.cpp:328-338 | closes only without bindings and requests |
| `ChildSas.IkeSaOwner.Poll` | core/src/security/ikev2_sa.cpp:350-365 | probes, deletes or fails as specified |
| `ChildSas.IkeSaOwner.SetDeadline` | core/src/security/ikev2_sa.cpp:105-117 | restarts the idle deadline unless the clock cannot represent it |
| `ChildSas.PairsOfInstalled` | core/src/security/ikev2_sa.cpp:236-255 | a committed installation adds exactly its pair and keeps the replaced one |
| `ChildSaProtocol.CompleteInstallMove` | core/src/security/ikev2_sa.cpp:224-260 | an acknowledgement with another request id changes nothing; the right one binds exactly the requested pair or none |
| `ChildSaProtocol.CompleteDeleteMove` | core/src/security/ikev2_sa.cpp:289-317 | likewise for removals |
| `ChildSaProtocol.ForwardRemoveStep` | core/src/security/ipsec_sad.cpp:152-184 | in agreement a removal that reaches the SAD always finds its pair whole |
| `ChildSaProtocol.StartsInAgreement` | core/src/security/ikev2_sa.cpp:75-93 | owners without children and an empty SAD agree |
| `ChildSaProtocol.NextKeepsAgreement` | core/include/router/ikev2_sa.hpp:156-180 | every move of either shard keeps agreement: each SA id in the SAD belongs to one CHILD SA of one owner |
| `ChildSaProtocol.RunKeepsAgreement` | core/include/router/ikev2_sa.hpp:156-180 | so does every interleaving of requests and late, repeated or lost acknowledgements, for any number of owners, if proposed SA ids are unclaimed |
| `ChildSaProtocol.AgreementLeavesNoHalves` | core/include/router/ipsec_sad.hpp:123-134 | in agreement the SAD never holds half of a pair |
| `ChildSaProtocol.BoundIsInstalled` | core/include/router/ikev2_sa.hpp:156-180 | a binding that nobody is removing has both directions installed |
| `ChildSaProtocol.PairServesUntilDeleted` | core/include/router/ikev2_sa.hpp:160-165 | over every run, a binding keeps its pair until somebody asks to delete it, its own replacement included |
| `ChildSaProtocol.RekeyOverlaps` | core/src/security/ikev2_sa.cpp:236-255 | when a rekey commits, new and replaced pair are both installed, the one active, the other retiring |
| `ChildSaProtocol.ClosedIsDrained` | core/src/security/ikev2_sa.cpp:328-338 | an owner before authentication or after closing answers for no pair, so the SAD holds none of its |
| `ChildSaProtocol.StrandedForever` | core/src/security/ikev2_sa.cpp:224-287 | once out of Established with an installation pending, always so, over every run |
| `ChildSaProtocol.StrandedPairStays` | core/src/security/ikev2_sa.cpp:224-287 | once its installation was committed, over every run with fresh proposals the owner stays stranded and its pair stays whole in the SAD |
| `ChildSaProtocol.PollStrands` | core/src/security/ikev2_sa.cpp:319-365 | from an agreeing start, a run with one installation request and two unanswered polls reaches a stranded owner, in a state where the orderly deletion refuses |
| `ChildSaProtocol.DrainCloses` | core/src/security/ikev2_sa.cpp:262-338 | otherwise there is a run that deletes every CHILD SA and closes the IKE SA |
| `ChildSaProtocol.DeletionFinishes` | core/src/security/ikev2_sa.cpp:262-365 | while request ids last, an IKE SA being deleted can still be closed if and only if no installation was pending |
| `ChildSaOwners.RunStaysSound` | core/src/security/ikev2_sa.cpp:75-365 | over every run keys exist exactly between derivation and closing or failure, CHILD SAs stay within the limit and one replacement, and probes within theirs |
| `ChildSaOwners.InstallAskedExactly` | core/src/security/ikev2_sa.cpp:191-222 | when a CHILD SA may be asked for, and that exactly what was proposed is asked under the next request number |
| `ChildSaOwners.RekeyAskedExactly` | core/src/security/ikev2_sa.cpp:172-222 | likewise for a rekey, which needs an active CHILD SA to replace and may take one place more |
| `ChildSaOwners.RemovalAskedExactly` | core/src/security/ikev2_sa.cpp:262-326 | when a removal or the deletion of the IKE SA may be asked for; the removal names the SA ids of the binding and marks it |
| `ChildSaOwners.HandshakeExactly` | core/src/security/ikev2_sa.cpp:119-163 | the handshake passes its phases in order with SPIs and keys present, restarts the idle time at each step and leaves no keys when it fails |
| `ChildSaOwners.InstallationIsActivity` | core/src/security/ikev2_sa.cpp:224-260 | a committed installation restarts the idle time, or fails the IKE SA when the clock cannot represent it |
| `ChildSaOwners.RefusedRemovalRestores` | core/src/security/ikev2_sa.cpp:262-317 | a removal that is refused leaves all bindings as they were, labels included |
| `ChildSaOwners.IdleTime` | core/src/security/ikev2_sa.cpp:340-365 | activity and a probe each put the next poll off by exactly the idle time |
| `ChildSaOwners.SilentPeerIsDeleted` | core/src/security/ikev2_sa.cpp:350-365 | a silent peer is probed once per idle time exactly as often as the limit says, and then deleted |
| `RelayRoutes.AppendMembers` | core/src/dhcpv6/dhcpv6_relay_route.cpp:31-81 | appending the routes of a lease succeeds exactly when their keys are new and they fit |
| `RelayRoutes.RebuildReflects` | core/src/dhcpv6/dhcpv6_relay_route.cpp:125-139 | a rebuild holds every wanted route once and nothing else, and succeeds only for separate keys |
| `RelayRoutes.RebuildSucceeds` | core/src/dhcpv6/dhcpv6_relay_route.cpp:125-139 | it succeeds for separate keys with two slots per lease |
| `RelayRoutes.StepMatchesRebuild` | core/src/dhcpv6/dhcpv6_relay_route.cpp:141-188 | after one mutation the incremental list again holds exactly the routes of the leases if and only if no exclude route of the replaced lease is left behind and none of another lease taken |
| `RelayRoutes.StaleBlackhole` | core/src/dhcpv6/dhcpv6_relay_route.cpp:141-188 | a renewal without the excluded prefix leaves its blackhole behind |
| `RelayRoutes.SharedBlackhole` | core/src/dhcpv6/dhcpv6_relay_route.cpp:141-188 | installing and removing a lease that excludes the same prefix takes the blackhole of the other |
| `RelayRoutes.CleanStepSucceeds` | core/src/dhcpv6/dhcpv6_relay_route.cpp:141-188 | with two slots per lease such a mutation can always be staged |
| `RelayRoutes.TwoRoutesPerLease` | core/include/router/dhcpv6_relay_route.hpp:42-46 | the list never holds more than two routes per lease |
| `RelayRoutes.BatchMatchesRebuild` | core/src/dhcpv6/dhcpv6_relay_route.cpp:141-197 | a clean batch passes both owners completely and leaves them in step |
| `RelayRoutes.IncrementalEqualsRebuild` | core/include/router/dhcpv6_relay_route.hpp:42-61 | after any run of clean batches, committed or discarded, a rebuild over the current leases succeeds and the routes are exactly its routes |
| `RelayRuns.RebuildRoutesLeases` | core/src/dhcpv6/dhcpv6_relay_route.cpp:43-139 | field by field, a rebuild has for every lease whose own kind is switched on the route to it through its relay peer, for every switched-on excluded prefix a blackhole without next hop, and nothing else |
| `RelayRuns.RunRoutesLeases` | core/src/dhcpv6/dhcpv6_relay_route.cpp:43-197 | and so have the incremental routes after every clean run |
| `RelayOwners.StageRecordExtends` | core/src/dhcpv6/dhcpv6_relay_lease.cpp:370-409 | staging keeps resources apart and projects the net of the batch |
| `RelayOwners.StageAllExactly` | core/src/dhcpv6/dhcpv6_relay_lease.cpp:370-409 | a Reply is staged if and only if each record is acceptable beside the live leases and the records before it, and the batch is then exactly the effective records |
| `RelayRuns.ReplyIsStaged` | core/src/dhcpv6/dhcpv6_relay_lease.cpp:370-409 | a Reply is refused exactly when it names a resource of another client or kind, or one it has already assigned or withdrawn |
| `RelayRuns.CommitContents` | core/src/dhcpv6/dhcpv6_relay_lease.cpp:545-574 | a batch committed to its end leaves exactly the leases it installed and those whose resource it does not name |
| `RelayOwners.CommitCompletes` | core/src/dhcpv6/dhcpv6_relay_lease.cpp:545-574 | a staged batch is committed to its end if and only if the number of leases stays within the reserved space all the way |
| `RelayOwners.ProjectionIsFinal` | core/src/dhcpv6/dhcpv6_relay_lease.cpp:364-409 | the projected count is the count of the interface after the commit |
| `RelayOwners.LateWithdrawalIsRefused` | core/src/dhcpv6/dhcpv6_relay_lease.cpp:545-574 | assigning before withdrawing at a full repository stops half way although the projection fits |
| `RelayOwners.RenewalRestorable` | core/src/dhcpv6/dhcpv6_relay_route.cpp:225-238 | after one clean renewal the own checkpoint can be restored if and only if the lease has no route or no later lease has one |
| `RelayOwners.RenewalExample` | core/src/dhcpv6/dhcpv6_relay_route.cpp:225-238 | a renewal after which the own checkpoint is refused |
| `RelayRuns.BatchMatchesExactly` | core/src/dhcpv6/dhcpv6_relay_route.cpp:141-188 | in a batch that both owners take, every intermediate list of routes is that of a rebuild if and only if no mutation leaves a route behind or takes one of another lease |
| `RelayRuns.RunMatchesExactly` | core/include/router/dhcpv6_relay_route.hpp:42-61 | over any run of batches, committed or discarded, likewise |
| `RelayRuns.RunKeepsOrder` | core/src/dhcpv6/dhcpv6_relay_route.cpp:141-197 | after any clean run the routes are, in order, those of the leases sorted by their last installation |
| `RelayRuns.RunRestorable` | core/src/dhcpv6/dhcpv6_relay_route.cpp:225-238 | after any clean run the own checkpoint can be restored if and only if the leases with routes were last installed in the order in which they stand |
| `RelayOwners.LeaseRepository.PrepareReply` | core/src/dhcpv6/dhcpv6_relay_lease.cpp:337-543 | succeeds if and only if all records can be staged and the projected count is within the limit; the batch is then what they stage, and the live leases stay |
| `RelayOwners.LeaseRepository.PrepareRemoval` | core/src/dhcpv6/dhcpv6_relay_lease.cpp:581-643 | stages the removal of exactly the chosen leases |
| `RelayOwners.LeaseRepository.CommitPrepared` | core/src/dhcpv6/dhcpv6_relay_lease.cpp:545-574 | applies the batch in order; refused without one |
| `RelayOwners.LeaseRepository.DiscardPrepared` | core/src/dhcpv6/dhcpv6_relay_lease.cpp:576-579 | changes no lease |
| `RelayOwners.RouteRepository.PrepareBatch` | core/src/dhcpv6/dhcpv6_relay_route.cpp:141-188 | stages on a copy; the live routes stay |
| `RelayOwners.RouteRepository.CommitStaged` | core/src/dhcpv6/dhcpv6_relay_route.cpp:190-197 | publishes the staged routes, once |
| `RelayOwners.RouteRepository.RebuildAll` | core/src/dhcpv6/dhcpv6_relay_route.cpp:125-139 | replaces the routes by a complete rebuild or leaves them |
| `NsecOrder.OrderEqual` | core/src/dns/dnssec_denial.cpp:150-168 | the comparison is zero exactly for names equal up to case |
| `NsecOrder.TotalOrder` | core/src/dns/dnssec_denial.cpp:48-60 | antisymmetric, transitive and total |
| `NsecOrder.FirstDifference` | core/src/dns/dnssec_denial.cpp:42-168 | a name comes before another exactly when it is a proper ancestor of it, or at the first label where they differ its label is a proper prefix or has the smaller folded octet at the first difference |
| `NsecOrder.FoldedIsLowerCase` | core/src/dns/dnssec_denial.cpp:42-46 | folding exchanges exactly the capital letters for the small ones |
| `NsecOrder.AncestorsFirst` | core/src/dns/dnssec_denial.cpp:150-168 | an ancestor comes strictly before every name below it |
| `NsecOrder.SubtreeIsConsecutive` | core/src/dns/dnssec_denial.cpp:150-168 | nothing else comes between two names below one name |
| `Nsec.ExactlyOneInterval` | core/src/dns/dnssec_denial.cpp:66-80 | over a complete chain every name that is not an owner falls in exactly one circular interval, and an owner in none |
| `Nsec.ProveNameError` | core/src/dns/dnssec_denial.cpp:179-213 | the search loop decides what the proof consists of |
| `Nsec.DeniedExactly` | core/src/dns/dnssec_denial.cpp:179-213 | over a complete chain a name error is proved if and only if the name is not an owner, a non-root ancestor is, and the wildcard at the deepest one is not |
| `Nsec.SortedAscends` | core/src/dns/dnssec_nsec_chain.cpp:76-79 | sorting different names gives a strictly ascending list of the same names |
| `Nsec.ChainOfZone` | core/src/dns/dnssec_nsec_chain.cpp:37-118 | the owners of the built chain in order are exactly the authoritative names of the zone |
| `Nsec.ZoneCoversAbsentNames` | core/include/router/dnssec_nsec_chain.hpp:16-22 | the chain of a zone covers every name the zone has no authority over, once, and no other |
| `Nsec.NoDataExactly` | core/src/dns/dnssec_denial.cpp:170-177 | absence of a type is proved if and only if the name is authoritative and shows neither the type nor a CNAME |
| `NsecZones.DeniedInZone` | core/src/dns/dnssec_denial.cpp:179-213 | over the built chain a name error is proved if and only if the name is not authoritative, the deepest authoritative name above it is not the root, and the wildcard there is not authoritative |
| `NsecZones.ZoneProvedExactly` | core/src/dns/dnssec_denial.cpp:179-213 | for the chain built from a zone's records, proofs and name errors agree for all valid names under the origin if and only if no cut leaves room for a name below it, every empty non-terminal and the root meet their wildcard conditions |
| `NsecZones.PlainZonesAreDenied` | core/include/router/dnssec_denial.hpp:40-56 | so in a zone below the root without delegations and empty non-terminals the proof is sound and complete |
| `NsecZones.DelegatedIsDenied` | core/src/dns/dnssec_denial.cpp:179-213 | every name below a delegation is denied, although the parent owes a referral |
| `NsecZones.EmptyNonTerminalIsDenied` | core/src/dns/dnssec_denial.cpp:179-213 | an existing name without records is denied if and only if the proof does not stop at the root or a wildcard |
| `NsecZones.EmptyWildcardIsDenied` | core/src/dns/dnssec_denial.cpp:179-213 | an absent child of an authoritative name whose wildcard exists without records is denied, although the wildcard answers for it |
| `NsecZones.DelegationExample` | core/src/dns/dnssec_denial.cpp:179-213 | a zone whose delegated name has a record and is denied |
| `NsecZones.EmptyNonTerminalExample` | core/src/dns/dnssec_denial.cpp:179-213 | a zone whose empty non-terminal is denied |
| `NsecZones.RootZoneExample` | core/src/dns/dnssec_denial.cpp:187-200 | a root zone and a name that is an error and is not denied |
| `NsecZones.BuiltExactly` | core/src/dns/dnssec_nsec_chain.cpp:37-118 | a chain is built if and only if the origin has records of its own |
| `NsecZones.ChainMeans` | core/src/dns/dnssec_nsec_chain.cpp:37-118 | record by record: the chain has one denial record for every name that owns records, in canonical order from the origin on, each naming the next and the last the origin, and shows at each the kinds of record there are, at a delegation only NS and DS |
| `NsecZones.InZoneMeans` | core/src/dns/dnssec_nsec_chain.cpp:45-71 | a name is authoritative when it owns a record other than a signature or denial record at or below the origin and no name above it is delegated |
| `NeighborIndex.ProbeReaches` | core/src/ip/ipv6_neighbor_cache.cpp:50-69 | the probe sequence visits every slot |
| `NeighborIndex.FilledComplete` | core/src/ip/ipv6_neighbor_cache.cpp:121-150 | filling the first tombstone or empty slot on the way indexes the entry and keeps the others findable |
| `NeighborIndex.BuriedIndexes` | core/src/ip/ipv6_neighbor_cache.cpp:152-176 | a tombstone keeps the others findable |
| `NeighborIndex.NeighborTable.Lookup` | core/src/ip/ipv6_neighbor_cache.cpp:50-69 | finds a key exactly when a linear scan of the valid entries does, with the same result |
| `NeighborIndex.NeighborTable.Insert` | core/src/ip/ipv6_neighbor_cache.cpp:121-150 | always succeeds at no more than half occupancy |
| `NeighborIndex.NeighborTable.EraseEntry` | core/src/ip/ipv6_neighbor_cache.cpp:152-176 | clears the entry and only it |
| `NeighborIndex.NeighborTable.EnsureCapacity` | core/src/ip/ipv6_neighbor_cache.cpp:71-119 | afterwards the wanted entries fill at most half; the rebuild never fails |
| `NeighborIndex.NeighborTable.Allocate` | core/src/ip/ipv6_neighbor_cache.cpp:201-244 | a hole, a new place or the least recently used STALE entry, in this order |
| `NeighborIndex.NeighborTable.Learn` | core/src/ip/ipv6_neighbor_cache.cpp:393-440 | with the index, does to the entries what a scan would; an unusable key or address changes nothing |
| `NeighborIndex.NeighborTable.ClearDynamic` | core/src/ip/ipv6_neighbor_cache.cpp:568-581 | with both filters given, removes the dynamic entry of one key and the vacant tail |
| `NeighborIndex.NeighborTable.ClearMatching` | core/src/ip/ipv6_neighbor_cache.cpp:568-581 | removes every dynamic entry that passes the interface and address filters, and the vacant tail, and counts them |
| `NeighborIndex.NeighborTable.ApplyBatch` | core/src/ip/ipv6_neighbor_cache.cpp:442-517 | a refusal leaves the entries as they were |
| `NeighborEntries.AllocatedExactly` | core/src/ip/ipv6_neighbor_cache.cpp:201-244 | a place is found if and only if there is room; an entry is replaced only when nothing is vacant and nothing can be added, and it is a STALE one used least recently |
| `NeighborEntries.LearnedExactly` | core/src/ip/ipv6_neighbor_cache.cpp:393-440 | succeeds if and only if key and address are usable and the neighbor is known and not fixed elsewhere, or there is room; the neighbor is then known with the address, no other entry changed and the room never shrinks |
| `NeighborEntries.LearnedState` | core/src/ip/ipv6_neighbor_cache.cpp:393-440 | a neighbor that is new, unresolved or has changed its address becomes STALE, another keeps its state, a fixed one is left alone, and what was learned is the entry used last |
| `NeighborEntries.UsableMacMeans` | core/src/ip/ipv6_neighbor_cache.cpp:399-409 | in octets: the group bit is clear and some octet is set |
| `NeighborEntries.UsableKeyMeans` | core/src/ip/ipv6_neighbor_cache.cpp:407-409 | in octets: an interface, and an address neither unspecified nor multicast |
| `NeighborEntries.ClearedExactly` | core/src/ip/ipv6_neighbor_cache.cpp:568-581 | the key is gone unless fixed, and nothing else |
| `NeighborEntries.ClearedWhereExactly` | core/src/ip/ipv6_neighbor_cache.cpp:568-581 | exactly the entries that were not selected remain, where they were, and removed and remaining add up to the entries before |
| `NeighborEntries.BatchIsAllOrNothing` | core/src/ip/ipv6_neighbor_cache.cpp:442-517 | an admissible batch never fails half way, so a failed one changed nothing |
| `NeighborEntries.BatchTakenExactly` | core/src/ip/ipv6_neighbor_cache.cpp:442-503 | a batch is taken exactly when keys are usable and different, what it learns is usable and contradicts no fixed neighbor, and unknown neighbors and irreplaceable entries fit the table together |
| `NeighborEntries.BatchKeepsExactly` | core/src/ip/ipv6_neighbor_cache.cpp:442-517 | a successful batch ends with every neighbor it learned if and only if a counter of places, started at the room and charged per edit, never runs short |
| `NeighborEntries.LearnedSpares` | core/src/ip/ipv6_neighbor_cache.cpp:201-440 | learning takes its charge from the places not used since the batch began and disturbs no other neighbor, or, when they are short, loses one learned in it |
| `NeighborEntries.BatchMayReplaceItself` | core/src/ip/ipv6_neighbor_cache.cpp:505-515 | a successful batch may end without a neighbor it learned |
| `Persistence.KeyInjective` | apps/web/src/persistence.ts:165-169 | the composite key is injective for project ids without NUL |
| `Persistence.SaveRepresents` | apps/web/src/persistence.ts:202-268 | an incremental save is whole-project storage: the project's records are exactly its objects with their values, no orphan, other projects untouched |
| `Persistence.RevisionCountsChanges` | apps/web/src/persistence.ts:229-241 | over any history of calls, a record's revision counts the saves that changed its object since it was last created |
| `Persistence.LoadReturnsSaved` | apps/web/src/persistence.ts:278-320 | a load returns the stored project, and nothing for an unknown id |
| `Persistence.RunIsSequential` | apps/web/src/persistence.ts:270-276 | with each save chained behind the tail current at its call, any history of calls, starts and failures equals running the saves one by one in call order, failed ones skipped |
| `Persistence.StepKeepsOrder` | apps/web/src/persistence.ts:270-276 | every step of the promise chain keeps: calls settle in order, at most one runs, and it reads what the calls before it left |
| `Persistence.OneAtATime` | apps/web/src/persistence.ts:270-276 | over every history a call starts only when all earlier calls have settled, fulfilled or rejected |
| `Persistence.UnchainedRevives` | apps/web/src/persistence.ts:270-276 | without the chain, when both saves read before either writes, an older save that finishes late brings back an object the newer one removed, and its own head |
| `Persistence.HistoryLoads` | apps/web/src/persistence.ts:202-320 | after any history a load returns the last project saved successfully under the id |
| `Persistence.HistoryLoadsActive` | apps/web/src/persistence.ts:202-330 | after any history the application opens the project that was saved successfully last, as it was saved |
| `Persistence.SummaryCounts` | apps/web/src/persistence.ts:215-247 | the summary counts for every store the objects that the stored project does not have with the same value |
| `Persistence.ProjectStore.WriteKind` | apps/web/src/persistence.ts:228-242 | writes exactly the objects whose fingerprint changed, and counts them |
| `Persistence.ProjectStore.RemoveMissing` | apps/web/src/persistence.ts:250-257 | deletes exactly the listed ids that are no longer live |
| `Persistence.ProjectStore.SaveNow` | apps/web/src/persistence.ts:202-268 | the loops leave the store representing the library with this project replaced and active, and return the summary of new and changed objects |
| `StreamDecoder.FramesOfSplit` | core/include/router/dhcpv4_leasequery.hpp:48-63 | framing can be cut anywhere when the remainder is carried over |
| `StreamDecoder.EveryOctetOnce` | core/src/dhcpv4/dhcpv4_leasequery.cpp:127-180 | every octet is in one frame or in the remainder |
| `StreamDecoder.FeedFrames` | core/include/router/dhcpv4_failover.hpp:173-187 | the owner's loop over one read dispatches exactly the frames that pending and new octets make up |
| `StreamDecoder.SegmentationIndependent` | core/include/router/dhcpv4_failover.hpp:173-206 | however the stream is cut into reads, frames and remaining state are those of the whole stream |
| `StreamDecoder.SentIsReceived` | core/src/dhcpv4/dhcpv4_leasequery.cpp:246-259 | a sequence of encoded messages is received as that sequence |
| `StreamDecoder.LeasequeryRestores` | core/src/dhcpv4/dhcpv4_leasequery.cpp:204-244 | a checkpoint of any reachable state is accepted and gives the state back |
| `StreamDecoder.LeasequeryAcceptedExactly` | core/src/dhcpv4/dhcpv4_leasequery.cpp:217-244 | which checkpoints are accepted, in terms of their octets |
| `StreamDecoder.FailoverRestores` | core/src/dhcpv4/dhcpv4_failover.cpp:264-296 | a checkpoint is accepted if and only if the decoder has not failed |
| `StreamDecoder.FailoverAcceptedExactly` | core/src/dhcpv4/dhcpv4_failover.cpp:276-296 | which checkpoints are accepted, in terms of their octets |
| `StreamDecoder.FailedFailoverExample` | core/src/dhcpv4/dhcpv4_failover.cpp:213-296 | a two-octet input after which the checkpoint is refused |
| `StreamDecoder.LeasequeryDecoder.Accept` | core/src/dhcpv4/dhcpv4_leasequery.cpp:127-180 | in place, accepts up to the end of one frame as specified |
| `StreamDecoder.LeasequeryDecoder.ConsumeFrame` | core/src/dhcpv4/dhcpv4_leasequery.cpp:182-196 | releases the frame and starts afresh |
| `StreamDecoder.FailoverDecoder.Accept` | core/src/dhcpv4/dhcpv4_failover.cpp:213-262 | in place, accepts up to the end of one message as specified |
| `StreamDecoder.FailoverDecoder.ConsumeMessage` | core/src/dhcpv4/dhcpv4_failover.cpp:298-307 | releases the message and starts afresh |
| `IpsecConfiguration.Validate` | core/include/router/ipsec_configuration.hpp:269-439 | accepts exactly the configurations whose keys differ and are in range, whose items are right, transport profiles and tunnel templates included, and whose references all resolve |
| `IpsecConfiguration.ValidateCertificates` | core/include/router/ipsec_credentials_configuration.hpp:103-145 | likewise for certificate profiles |
| `IpsecConfiguration.ValidatePpks` | core/include/router/ipsec_credentials_configuration.hpp:165-185 | likewise for post-quantum key lists |
| `IpsecConfiguration.ValidateSelectors` | core/include/router/ipsec_traffic_selector_configuration.hpp:161-191 | likewise for traffic selector lists |
| `IpsecConfiguration.ValidateProfiles` | core/include/router/ipsec_tunnel_configuration.hpp:162-249 | likewise for transport profiles and tunnel templates |
| `IpsecConfiguration.ValidateReferences` | core/include/router/ipsec_configuration.hpp:391-438 | accepts exactly when every transform, policy, profile and key reference resolves and none repeats |
| `IpsecConfiguration.UniqueBy` | core/include/router/ipsec_configuration.hpp:322-331 | the nested loops decide whether all keys differ |
| `IpsecConfiguration.RunningIsCandidate` | core/include/router/ipsec_configuration.hpp:269-439 | what is accepted as running is accepted as a candidate |
| `IpsecConfiguration.OrderDoesNotMatter` | core/include/router/ipsec_configuration.hpp:269-439 | the verdict does not depend on the order of any list, outer or inner, all reordered together |

## Left out

- Cryptography, TLS, QUIC and HTTP sessions: key handles and authentication results are inputs.
- DHCP failover relationships, MLD, OSPF and the DNS resolver.
- `LabRuntime`, the command line, telemetry, alarms, device aggregates and generated catalogs, of which only constants are used.
- Clock readings near the end of the 64-bit range in `LinkDirections` and `Fabrics`: times are unbounded integers there; the serialization arithmetic of both and the IKE deadlines model the range.
- The initial exchange, authentication, orderly deletion and activity notes of the IKE SA owner are transition functions of the protocol without a method in place.
- Checkpoint and restore of the fabric, of the SAD and of the IKE SA owner; the link direction, the replay window, the request tracker, the relay routes and the stream decoders have theirs.
- The fabric's active-link counter, `next_delivery` and `can_enqueue`: easy members.
- Fabric queues are values of type `seq` bounded by their capacity; the ring they are stored in is `BoundedQueues`.
- The reassembly table copies octets and sets bitmap bits one by one; the model updates the range at once and keeps the bitmap as a set.
- Octet layout of DNS names and NSEC bitmaps: names are label sequences, bitmaps are sets, and the zone theorems speak of names that are valid on the wire. NSEC3, wildcard no-data, wildcard expansion and missing-DS proofs.
- DHCPv6 option parsing in `prepare_reply`: the resources of a Reply are the input of staging. Client observations and lease checkpoints.
- Relay configuration changes: the interface policies are fixed during a run; a change is followed by a rebuild, which is modelled.
- Neighbor reachability states beyond what learning and replacement need: timers, probes and advertisements. The use counter does not wrap.
- The neighbor index uses a remainder where the source masks with a power of two minus one, and any hash function.
- IndexedDB, file pickers and encryption in the web application: stores are maps, transactions are atomic, project parsing is the well-formedness predicate, and the JSON fingerprint is an injective function. A load that overlaps a save.
- IpsecConfiguration.Validate: does not cover client databases, RADIUS policies and manual transport keys, whose validators are of the same kind. Enumerations are datatypes, so a stored octet outside them is not representable.
- RelayOwners.LeaseRepository.CommitPrepared: promises no invariant after a batch that stopped half way, because the source keeps the partial state for diagnosis.

# Light-Andromeda, verified

Light-Andromeda is a user-space overlay switch. Tenant Ethernet frames are wrapped in an outer
Ethernet/IPv4/UDP packet with an eight-byte Andromeda header and carried between nodes; traffic that
leaves the fabric goes through a stateful NAT. This project models the forwarding logic of the switch in
Dafny and proves what it promises, over every packet and over every run.

The project has one layer of specification functions over values and one layer of imperative methods over
arrays and objects. Each method's postcondition equates its effect with the specification function, so the
theorems, which are about the functions, hold of the methods. `dafny verify dfyconfig.toml` checks it all.

| file | models |
|---|---|
| `Bytes`, `Arith` | big-endian fields, buffer patches; remainders |
| `Checksum`, `Headers` | Internet checksum and its incremental update; Ethernet, IPv4, TCP, UDP views |
| `Rewriting`, `PacketViews` | NAT's packet rewriting: specification and theorems; the in-place methods |
| `TimingWheel` | the hashed timing wheel and its exact firing rule |
| `Conntrack`, `ConntrackInvariant`, `ConntrackRuns`, `EvictionTightness`, `DnatRuns`, `ConntrackAccounts`, `NatEngine` | connection tracking: steps, invariant, runs, tightness of the eviction bound, port forwarding, counters, the engine object |
| `Spsc` | the single-producer single-consumer ring as interleaved atomic steps |
| `Overlay`, `Icmp`, `Stamping`, `PacketBuilders` | encapsulation, path-MTU replies, the templated header, the writers |
| `Pipeline`, `PipelineRefinement`, `PipelineProperties`, `Decisions`, `Delivery`, `PipelineEngine` | the three encapsulation paths and decapsulation: specification, refinement, wire properties, decision tables, delivery, the object |
| `Umem`, `LoopSpec`, `ForwardingLoop` | UMEM frame ownership; the forwarding loops over frames; the AF_XDP socket and the loops |

## Main results

- **Idle eviction is two-sided.** A flow last used at L is never evicted before L + timeout and never
  outlives the tick of L + timeout by more than one revolution of the wheel (`EvictionWindow`); the upper
  bound is reached by a flow put back into the bucket the hand has just passed, which no event of the
  following revolution can evict (`CurrentTickWaits`, `BoundReached`).
- **The tables never disagree.** In every run the port pool, the two SNAT tables, the wheel and the counters
  describe the same flows (`RunsAgree`, `RunsBijective`), so SNAT is inverted exactly until eviction
  (`SnatInversion`, on bytes `PacketRoundTrip`).
- **The ring is safe in every interleaving**, with stale loads and wrapping indices (`SpscSafety`).
- **The fast forms refine the simple ones**: templated header and reference builder
  (`TemplateMatchesReference`), zero-copy and copy (`ZeroCopyRefinesCopy`), batch and one at a time
  (`BatchRefinesSequential`). The specifications of copy and zero-copy share the function `Encapsulate`, so
  `ZeroCopyRefinesCopy` itself says that neither stamping nor replying depends on what else the buffer holds
  (`StampLocal`, `ReplyFits`); that each path's own sequence of writes is `Encapsulate` is what
  `EncapTenantFrame` and `OnTenantFrameInPlace` prove.
- **Rewriting conserves checksum status** and is invertible exactly when no patched checksum holds 0xffff
  (`ApplyKeepsHeaderValidity`, `ApplyKeepsTransportValidity`, `ApplyUndo`); patched fields are what a fresh
  computation would give (`ApplyMatchesHeaderRecompute`, `ApplyMatchesRecompute`, `TtlMatchesRecompute`).
- **Every decision is spelled out**: for each path, exactly which bytes lead to which verdict and counter
  (`CopyDecides`, `InPlaceDecides`, `BatchSlotDecides`, `UnderlayDecides`, `ReplyIffOversized`).
- **Frames arrive.** Across two switches a frame is delivered as it was sent, up to the endpoint's MAC and the
  receiver's NAT (`DeliveredAcrossFabric`, `DeliveredMeans`).
- **Every frame is in exactly one place** in every run of the loops and the kernel (`RunsOwned`), given
  all-or-nothing ring reservations, and only then (`RefillOwnedIff`).

## Where the code does less than its comments say

- "Traffic in either direction keeps a flow alive" (crates/andromeda-nat/src/lib.rs:309-316) fails for a flow
  whose tuple is also tracked as the answer of a port-forwarded server: the DNAT table is consulted first and
  the flow is not refreshed. `OutboundRefreshesIff` gives the exact condition, `ShadowedFlowEvicted` a run, and
  `LastTraffic` in `EvictionWindow` counts only packets that went through the flow.
- DNAT answers are restored correctly only if no internal endpoint is the target of two effective rules
  (`DnatInversion`, `DnatClash`).
- `apply` reports a transport segment that does not parse only after the IPv4 header has been rewritten
  (crates/andromeda-nat/src/lib.rs:366-434): `FailedApplyRewrites` is such a packet, `FailedApplyKeeps` says
  exactly when an error leaves the packet as it was. On the forwarding path it cannot happen, since a packet
  with a five-tuple is always accepted (`ApplyRefinesTuple`).
- `refill` cuts the tail of the free list while the shim enqueues from the front of the offered slice, so it
  is correct only for all-or-nothing reservations (`RefillOwnedIff`).
- Above 65499 bytes of inner frame `stamp_outer` wraps its length fields where `encap_in_place` refuses
  (`OversizeDiffers`).

## Model

| member | source | states |
|---|---|---|
| `Checksum.SumBe16` | crates/andromeda-core/src/checksum.rs:24-34 | the loop returns the sum of the big-endian words modulo 2^32, a trailing byte counting as a high byte |
| `Checksum.FoldCarries` | crates/andromeda-core/src/checksum.rs:39-44 | repeated carry addition computes the folded sum, for every 32-bit sum |
| `Checksum.FoldClosed` | crates/andromeda-core/src/checksum.rs:36-44 | the folded sum in closed form: 0 for 0, otherwise ((x-1) mod 65535) + 1 |
| `Checksum.FoldStep` | crates/andromeda-core/src/checksum.rs:39-44 | adding the carries back in never changes the folded value |
| `Checksum.FoldEqual` | crates/andromeda-core/src/checksum.rs:39-44 | positive sums congruent modulo 65535 fold to the same word |
| `Checksum.SumSplit` | crates/andromeda-core/src/checksum.rs:50-58 | a sum may be accumulated piecewise at any even offset |
| `Checksum.SumByBytes` | crates/andromeda-core/src/checksum.rs:20-34 | byte by byte: even positions weigh 256 and odd ones 1, a trailing byte included |
| `Checksum.SumPadded` | crates/andromeda-core/src/checksum.rs:20-34 | an odd block counts as if padded with a zero byte, section 1 of RFC 1071 |
| `Checksum.WrapIsMod` | crates/andromeda-core/src/checksum.rs:24-34 | the 32-bit accumulator holds the sum modulo 2^32 |
| `Checksum.ChecksumOf` | crates/andromeda-core/src/checksum.rs:16-18 | sum loop and carry loop together give the checksum |
| `Checksum.AccumulateOf` | crates/andromeda-core/src/checksum.rs:50-52 | the 32-bit accumulator after one more piece, wrap-around included |
| `Checksum.UpdateWordOf` | crates/andromeda-core/src/checksum.rs:70-76 | the incremental update through the carry loop |
| `Checksum.UpdateDwordOf` | crates/andromeda-core/src/checksum.rs:81-84 | the high word first, then the low word |
| `Checksum.SumPatchWord` | crates/andromeda-core/src/checksum.rs:61-76 | overwriting one aligned word moves the sum by exactly the difference of the words |
| `Checksum.UpdateWordDelta` | crates/andromeda-core/src/checksum.rs:70-76 | the incremental update as an equation modulo 65535, and the only way it can return 0xffff |
| `Checksum.IncrementalVersusFull` | crates/andromeda-core/src/checksum.rs:16-76 | for buffers up to 131074 bytes, the incremental update equals the full checksum if and only if the new contents are not all zero |
| `Checksum.UpdateWordUndo` | crates/andromeda-core/src/checksum.rs:70-76 | updating back restores the stored checksum if and only if it was not 0xffff |
| `Checksum.UpdateDwordUndo` | crates/andromeda-core/src/checksum.rs:81-84 | the same for a 32-bit field, across the intermediate value between its two halves |
| `Headers.HeaderValidMeans` | crates/andromeda-core/src/ipv4.rs:113-118 | `checksum_valid` is the receiver's test on the exact header sum, and that sum is never zero |
| `Headers.Ipv4Iff` | crates/andromeda-core/src/ipv4.rs:25-56 | exactly which packets parse: version 4, header length at least 20 and within the buffer and the total length |
| `Headers.Ipv4Refused` | crates/andromeda-core/src/ipv4.rs:25-56 | and with which error the others are refused |
| `Headers.TransportNumbers` | crates/andromeda-core/src/tcp.rs:28-45 | protocol numbers, header lengths and checksum positions of TCP and UDP, and the errors of their parsers |
| `Headers.FiveTupleIff` | crates/andromeda-core/src/lib.rs:100-126 | exactly which packets have a five-tuple, and from which bytes it is read |
| `Headers.AccumulatorExact` | crates/andromeda-core/src/ipv4.rs:213-224 | the 32-bit accumulator over pseudo-header and segment never wraps for a segment an IPv4 packet can carry |
| `Headers.ComputeChecksumExact` | crates/andromeda-core/src/udp.rs:122-135 | `compute_checksum` is the complement of the folded exact sum, with UDP's zero sent as 0xffff |
| `Headers.ComputeChecksumOf` | crates/andromeda-core/src/udp.rs:122-135 | pseudo-header, segment, fold and complement through the loops, with the rule for zero |
| `Rewriting.PatchAllDelta` | crates/andromeda-core/src/udp.rs:92-107 | over any list of word changes a checksum absorbs exactly the changes; a disabled UDP checksum stays 0 and an enabled one is non-zero after every single word |
| `Rewriting.PatchAllUndo` | crates/andromeda-core/src/tcp.rs:115-123 | patching the same words back restores the field if and only if it is UDP, nothing changed, or the field was not 0xffff |
| `Rewriting.ApplyRefinesTuple` | crates/andromeda-nat/src/lib.rs:363-434 | on every packet with a five-tuple `apply` succeeds and the new five-tuple is the old one with the rewrite's fields substituted |
| `Rewriting.ApplyFrame` | crates/andromeda-nat/src/lib.rs:363-434 | for every input and every outcome only addresses, ports and checksum fields change; a packet that is not IPv4 is untouched |
| `Rewriting.ApplyKeepsHeaderValidity` | crates/andromeda-core/src/ipv4.rs:168-187 | the IPv4 header checksum verifies after `apply` if and only if it verified before |
| `Rewriting.ApplyKeepsTransportValidity` | crates/andromeda-nat/src/lib.rs:396-433 | TCP and enabled UDP checksums verify over the new pseudo-header if and only if they verified over the old one; disabled stays disabled, enabled stays enabled |
| `Rewriting.ApplyUndo` | crates/andromeda-nat/src/lib.rs:366-434 | applying the inverse rewrite restores the packet bit for bit if and only if no patched IPv4 or TCP checksum held 0xffff |
| `Rewriting.RecomputedMeans` | crates/andromeda-core/src/tcp.rs:138-145 | a checksum field is what `compute_checksum` would write if and only if the receiver accepts it and it is the canonical representation of zero |
| `Rewriting.FailedApplyKeeps` | crates/andromeda-nat/src/lib.rs:371-432 | when `apply` fails, the packet is untouched if and only if it is not IPv4, or the rewrite names only addresses it already has and repairs no IPv4 checksum of 0xffff |
| `Rewriting.FailedApplyRewrites` | crates/andromeda-nat/src/lib.rs:396-400 | a truncated TCP packet is reported as too short with its source address already replaced |
| `Rewriting.ApplyMatchesRecompute` | crates/andromeda-nat/src/lib.rs:396-433 | exactly when a TCP or UDP field is what a fresh computation would give after `apply`; a field that was still is |
| `Rewriting.HeaderRecomputedMeans` | crates/andromeda-core/src/ipv4.rs:113-118 | the IPv4 field is what a fresh computation over the header would give if and only if it verifies and is not 0xffff |
| `Rewriting.ApplyMatchesHeaderRecompute` | crates/andromeda-core/src/ipv4.rs:168-187 | exactly when the IPv4 field is what a fresh computation would give after `apply`; a field that was still is |
| `Rewriting.TtlMatchesRecompute` | crates/andromeda-core/src/ipv4.rs:189-204 | after a decrement the IPv4 field is what a fresh computation would give if and only if the header verified before |
| `Rewriting.TtlKeepsHeaderValidity` | crates/andromeda-core/src/ipv4.rs:189-204 | decrementing the TTL keeps the validity of the header and touches only TTL and checksum |
| `Rewriting.TtlCounts` | crates/andromeda-core/src/ipv4.rs:189-204 | the TTL goes down by one and is returned, or nothing happens because it is zero |
| `PacketViews.SetAddr` | crates/andromeda-core/src/ipv4.rs:168-187 | `set_src`/`set_dst`: the address and the updated checksum are written and nothing else |
| `PacketViews.DecrementTtlInPlace` | crates/andromeda-core/src/ipv4.rs:189-204 | new bytes and result are those of the specification, including the TTL that is already zero |
| `PacketViews.PatchChecksumWord` | crates/andromeda-core/src/udp.rs:92-101 | one word patched into a TCP or UDP checksum, with the disabled and zero rules for UDP |
| `PacketViews.PatchChecksumDword` | crates/andromeda-core/src/udp.rs:103-107 | the two halves are patched in order, each with the zero rule |
| `PacketViews.SetPort` | crates/andromeda-core/src/udp.rs:109-119 | port written, checksum patched by the old port, nothing else |
| `PacketViews.RewriteHeader` | crates/andromeda-nat/src/lib.rs:366-394 | the address half of `apply` on the buffer equals its specification |
| `PacketViews.RewriteSegment` | crates/andromeda-nat/src/lib.rs:396-433 | the transport half of `apply` on the buffer equals its specification |
| `PacketViews.ApplyInPlace` | crates/andromeda-nat/src/lib.rs:363-434 | `apply` on any window of a buffer: bytes and outcome are those of the specification, bytes outside the window are unchanged |
| `TimingWheel.FireTickUnique` | crates/andromeda-nat/src/timing_wheel.rs:40-43 | a firing tick is the only tick of the next revolution that lands in its bucket |
| `TimingWheel.FireTickStable` | crates/andromeda-nat/src/timing_wheel.rs:51-64 | moving the hand short of a key's firing tick does not change it |
| `TimingWheel.FireTickOfDeadline` | crates/andromeda-nat/src/timing_wheel.rs:40-49 | a deadline within a revolution fires in its own tick; a deadline in the current tick waits one revolution |
| `TimingWheel.InsertFires` | crates/andromeda-nat/src/timing_wheel.rs:40-49 | an entry due within the next revolution fires in the tick of its deadline, one due in the current tick a revolution later |
| `TimingWheel.AdvanceExact` | crates/andromeda-nat/src/timing_wheel.rs:51-64 | for a clock that does not run backwards, `advance` returns exactly the entries whose firing tick has come, each once, also when the steps are capped, and the rest keep hand < tick <= hand + slots |
| `TimingWheel.AdvanceConserves` | crates/andromeda-nat/src/timing_wheel.rs:51-64 | for every clock value no key is lost or duplicated |
| `TimingWheel.InsertKeys` | crates/andromeda-nat/src/timing_wheel.rs:45-49 | `insert` adds exactly one entry |
| `TimingWheel.TimingWheel.constructor` | crates/andromeda-nat/src/timing_wheel.rs:29-38 | an empty wheel with its hand at zero |
| `TimingWheel.TimingWheel.Insert` | crates/andromeda-nat/src/timing_wheel.rs:45-49 | the wheel afterwards is the specification's |
| `TimingWheel.TimingWheel.Advance` | crates/andromeda-nat/src/timing_wheel.rs:51-64 | the draining loop appends exactly the specification's due keys and leaves its wheel |
| `TimingWheel.TimingWheel.Len` | crates/andromeda-nat/src/timing_wheel.rs:66-70 | the number of scheduled entries |
| `Conntrack.AllocComplete` | crates/andromeda-nat/src/lib.rs:285-307 | the preferred port if free and in range, else some free port in range, none if and only if every port is in use; the cursor stays in range |
| `Conntrack.AllocRoundRobin` | crates/andromeda-nat/src/lib.rs:285-307 | the preferred port without moving the cursor, else the first free port round the range from the cursor, which then stands on the next one |
| `Conntrack.FindRuleFirst` | crates/andromeda-nat/src/lib.rs:243-247 | the rule found is the first one for the protocol and port, and none is found exactly if none matches |
| `Conntrack.InboundForwards` | crates/andromeda-nat/src/lib.rs:240-279 | a packet for a forwarded port goes to the first matching rule's target, and its answer is tracked with the current time unless 65536 already are |
| `Conntrack.InboundIgnores` | crates/andromeda-nat/src/lib.rs:240-283 | a packet that neither answers a flow nor matches a rule changes nothing and is not changed |
| `Conntrack.InboundAnswers` | crates/andromeda-nat/src/lib.rs:228-239 | an answer goes to the flow's private endpoint and refreshes that entry only |
| `Conntrack.OutboundAnswers` | crates/andromeda-nat/src/lib.rs:161-172 | a tracked server answer leaves with its external endpoint and refreshes that entry only |
| `Conntrack.OutboundHits` | crates/andromeda-nat/src/lib.rs:174-183 | a packet of a live flow leaves from its NAT endpoint and refreshes that flow only |
| `Conntrack.OutboundOpens` | crates/andromeda-nat/src/lib.rs:185-226 | any other packet opens a flow on a free port with both entries stamped now and one wheel entry, or passes untranslated and is counted if no port is free |
| `ConntrackInvariant.FreshInv` | crates/andromeda-nat/src/lib.rs:110-129 | a new engine satisfies the invariant |
| `ConntrackInvariant.OutboundKeepsInv` | crates/andromeda-nat/src/lib.rs:161-226 | an outbound packet keeps the port pool, both tables, the wheel and the counters in agreement |
| `ConntrackInvariant.InboundKeepsInv` | crates/andromeda-nat/src/lib.rs:228-283 | an inbound packet keeps them in agreement and the DNAT table within 65536 entries |
| `ConntrackInvariant.GcKeepsInv` | crates/andromeda-nat/src/lib.rs:309-361 | a collection keeps them in agreement and reports exactly the number of flows it removed |
| `ConntrackInvariant.DueKeysAreLive` | crates/andromeda-nat/src/lib.rs:321-352 | the "already gone" branch of `gc` is never taken |
| `Conntrack.GcKeyAbsent` | crates/andromeda-nat/src/lib.rs:325-328 | a due key whose flow is gone would be skipped and not counted |
| `ConntrackRuns.RunsAgree` | crates/andromeda-nat/src/lib.rs:161-361 | in every run: ports in use are exactly those of live flows, no port is shared, wheel keys are exactly the live flows once each, created = expired + active, DNAT table bounded |
| `ConntrackRuns.RunsBijective` | crates/andromeda-nat/src/lib.rs:161-361 | in every run: forward and reverse table are inverse to each other through the expected reply, equally large, all ports and the cursor in range |
| `ConntrackRuns.EvictedIff` | crates/andromeda-nat/src/lib.rs:317-361 | a collection evicts a flow if and only if its wheel entry is due and its last traffic plus the timeout is not in the future; a survivor keeps port and timestamps |
| `ConntrackRuns.EvictedExactly` | crates/andromeda-nat/src/lib.rs:326-352 | the same in terms of the two timestamps alone, deadline millisecond and saturating clock included |
| `ConntrackRuns.SnatInversion` | crates/andromeda-nat/src/lib.rs:174-239 | from creation until eviction, whatever intervenes, the reply to the translated tuple is rewritten to exactly the reverse of the original tuple |
| `ConntrackRuns.ReplyIsReversed` | crates/andromeda-nat/src/lib.rs:228-239 | the reply of any live flow is rewritten to that flow's private endpoint |
| `ConntrackRuns.ReplyUnambiguous` | crates/andromeda-nat/src/lib.rs:174-226 | no reply tuple belongs to two private flows |
| `ConntrackRuns.OutboundTranslates` | crates/andromeda-nat/src/lib.rs:161-226 | an outbound packet that is not a tracked server answer is translated if and only if its flow exists or a port is free |
| `ConntrackRuns.EffLastIsLastTraffic` | crates/andromeda-nat/src/lib.rs:326-343 | the timestamp `gc` compares is the time of the last packet that went through the flow in the run, in either direction |
| `ConntrackRuns.EvictionWindow` | crates/andromeda-nat/src/lib.rs:317-361 | with a monotone clock and one timeout, a flow last used at L is evicted by a collection if and only if its entry is due and L + timeout has come; so it survives every collection before L + timeout and is gone after any at or past the tick of L + timeout plus one revolution |
| `EvictionTightness.CurrentTickWaits` | crates/andromeda-nat/src/lib.rs:321-352 | a flow surfaced in its deadline's own tick but before the deadline survives every run of packets and collections, with any timeouts, that stays within the next revolution |
| `EvictionTightness.BoundReached` | crates/andromeda-nat/src/lib.rs:317-361 | a run of a new engine in which a flow with deadline 120.5 s is live after a collection at 375.999 s and evicted by one at 376 s |
| `DnatRuns.DnatInversion` | crates/andromeda-nat/src/lib.rs:161-172 | if no internal endpoint has two external ports, the tracked answer of a forwarded packet is rewritten to exactly its reverse, in every run |
| `DnatRuns.DnatClash` | crates/andromeda-nat/src/lib.rs:240-283 | if two effective rules share an endpoint, two packets of one client make the answer leave with the wrong external port |
| `DnatRuns.DnatKept` | crates/andromeda-nat/src/lib.rs:354-361 | a tracked answer survives a collection if and only if it is no older than the timeout |
| `DnatRuns.OutboundRefreshesIff` | crates/andromeda-nat/src/lib.rs:161-189 | an outbound packet refreshes its live flow if and only if its tuple is not also tracked as a server answer |
| `DnatRuns.ShadowedFlowEvicted` | crates/andromeda-nat/src/lib.rs:161-189 | a concrete run in which a flow is evicted one millisecond after its last packet, because that packet was taken for a server answer |
| `DnatRuns.PacketRoundTrip` | crates/andromeda-nat/src/lib.rs:150-283 | on bytes: a translated packet's answer comes back addressed to the private endpoint after any run that keeps the flow, and neither rewrite changes whether a checksum verifies |
| `ConntrackAccounts.RunAccounts` | crates/andromeda-nat/src/lib.rs:161-283 | over every run, hits, new flows, refusals and reversals add up to the outbound packets and the answers, and the forwards counted are those there was room to track |
| `ConntrackAccounts.FreshCounters` | crates/andromeda-nat/src/lib.rs:110-129 | a new engine has empty tables, counters at zero, its cursor on the first port and a wheel of 256 slots of 1000 ms |
| `NatEngine.NatEngine.constructor` | crates/andromeda-nat/src/lib.rs:110-129 | a new engine is the specification's initial state |
| `NatEngine.NatEngine.AddDnatRule` | crates/andromeda-nat/src/lib.rs:131-133 | the rule is appended and nothing else changes |
| `NatEngine.NatEngine.SetIdleTimeout` | crates/andromeda-nat/src/lib.rs:135-140 | only the timeout changes |
| `NatEngine.NatEngine.AllocatePort` | crates/andromeda-nat/src/lib.rs:285-307 | the scanning loop returns the specification's port and cursor and marks the port used |
| `NatEngine.NatEngine.ProcessOutbound` | crates/andromeda-nat/src/lib.rs:161-226 | result and new state are those of the outbound step; the invariant is kept |
| `NatEngine.NatEngine.ProcessInbound` | crates/andromeda-nat/src/lib.rs:228-283 | result and new state are those of the inbound step; the invariant is kept |
| `NatEngine.NatEngine.Process` | crates/andromeda-nat/src/lib.rs:153-159 | dispatch by direction |
| `NatEngine.NatEngine.CollectKey` | crates/andromeda-nat/src/lib.rs:325-352 | one due key is evicted with its reverse entry and port, or rescheduled |
| `NatEngine.NatEngine.CollectGarbage` | crates/andromeda-nat/src/lib.rs:309-361 | the whole collection is the specification's, and its count is the number of evictions |
| `Spsc.NextPow2Least` | crates/andromeda-dataplane/src/spsc.rs:80-83 | the capacity is the least power of two not below the request |
| `Spsc.MaskIsMod` | crates/andromeda-dataplane/src/spsc.rs:114-117 | masking with a power of two less one is the remainder |
| `Spsc.SlotOfIndex` | crates/andromeda-dataplane/src/spsc.rs:117-135 | the slot of a free-running index stays correct across the wrap at 2^64 |
| `Spsc.WrappedDifference` | crates/andromeda-dataplane/src/spsc.rs:114-132 | difference and equality of wrapped indices are those of the unbounded counters |
| `Spsc.InitInv` | crates/andromeda-dataplane/src/spsc.rs:82-101 | a new ring satisfies the invariant, for every request up to 2^63 |
| `Spsc.FullIff` | crates/andromeda-dataplane/src/spsc.rs:111-116 | the full test succeeds exactly when the ring is full as far as the producer has seen |
| `Spsc.EmptyIff` | crates/andromeda-dataplane/src/spsc.rs:129-134 | the empty test succeeds exactly when the ring is empty as far as the consumer has seen |
| `Spsc.StepKeeps` | crates/andromeda-dataplane/src/spsc.rs:103-140 | every atomic step of either thread keeps the invariant, with any stale but monotone load |
| `Spsc.SpscSafety` | crates/andromeda-dataplane/src/spsc.rs:80-140 | in every state of every interleaving: popped is a prefix of pushed, at most the capacity in flight, slots in bounds, writer and reader never on the same slot |
| `Spsc.PushAlone` | crates/andromeda-dataplane/src/spsc.rs:108-121 | a push with an up-to-date load is the bounded queue's: append, or fail and change nothing when full |
| `Spsc.PopAlone` | crates/andromeda-dataplane/src/spsc.rs:126-139 | a pop with an up-to-date load takes the oldest element, or reports empty |
| `Overlay.HeaderRoundTrip` | crates/andromeda-core/src/overlay.rs:89-126 | decode of encode gives the header cut to its bit widths exactly when the version nibble is current, else the version error |
| `Overlay.StoredChecksumVerifies` | crates/andromeda-core/src/checksum.rs:8-18 | writing the checksum of a block that is not all zero into its own zero field makes the block verify |
| `Overlay.HeaderWritten` | crates/andromeda-core/src/ipv4.rs:225-255 | every IPv4 header built parses, verifies and reads back all its fields |
| `Overlay.DatagramVerifies` | crates/andromeda-core/src/overlay.rs:243-256 | with outer checksums on, the outer UDP datagram verifies and its field is not zero |
| `Overlay.OverlayRoundTrip` | crates/andromeda-core/src/overlay.rs:181-295 | decapsulating an encapsulated frame of up to 65499 bytes gives inner frame, VNI modulo 2^24, flow hash and outer addresses; the outer header verifies and its lengths are exact |
| `Overlay.EncapThenDecap` | crates/andromeda-core/src/overlay.rs:166-179 | the two-buffer form writes exactly the reported bytes and they decapsulate to the same frame |
| `Overlay.LargestInner` | crates/andromeda-core/src/overlay.rs:198-210 | 65499 is the largest length whose 16-bit fields do not overflow, and exactly the longer ones are refused |
| `Overlay.DecapIff` | crates/andromeda-core/src/overlay.rs:268-295 | exactly which frames are passed on, accepted and refused: not IPv4, not UDP or not port 43481; with an Andromeda header of version 1; the rest |
| `Overlay.DecapReads` | crates/andromeda-core/src/overlay.rs:103-126 | from which bytes of an accepted frame inner frame, header fields and outer addresses are read |
| `Stamping.OuterPacketReads` | crates/andromeda-core/src/overlay.rs:212-256 | every field of the outer packet at its place: MACs, lengths, id, DF, TTL 64, addresses, source port 0xc000 plus 14 bits of flow hash, port 43481, version 1, VNI, hop limit 64 |
| `Icmp.IcmpVerifies` | crates/andromeda-core/src/icmp.rs:84-97 | the ICMP message verifies and carries type, code, next-hop MTU and quote |
| `Icmp.ReplyWellFormed` | crates/andromeda-core/src/icmp.rs:26-100 | every reply parses, goes from gateway to sender, verifies at both layers, carries the MTU and quotes the header plus eight bytes |
| `Icmp.ReplyFits` | crates/andromeda-core/src/icmp.rs:49-60 | a reply fits wherever the encapsulated original would |
| `Icmp.FragNeededIff` | crates/andromeda-core/src/icmp.rs:43-99 | a reply is built exactly if the original parses and 42 bytes plus the quote fit; otherwise nothing is written |
| `Stamping.TemplateMatchesReference` | crates/andromeda-dataplane/src/pipeline.rs:548-602 | for every config, destination, flow, id, VNI and length up to 65499 the templated header equals `encap_in_place` byte for byte, outer UDP checksum on or off |
| `Stamping.OversizeDiffers` | crates/andromeda-dataplane/src/pipeline.rs:548-602 | beyond 65499 bytes the reference builder refuses and the template's length field wraps |
| `Stamping.StampLocal` | crates/andromeda-dataplane/src/pipeline.rs:548-602 | stamping depends on the buffer only through the inner frame and changes only the first 50 bytes |
| `PacketBuilders.WriteEthHeader` | crates/andromeda-core/src/ethernet.rs:175-184 | the 14 bytes of the header and nothing else |
| `PacketBuilders.WriteIpv4Header` | crates/andromeda-core/src/ipv4.rs:225-255 | field writes followed by the checksum give the specified header and nothing else |
| `PacketBuilders.WriteUdpHeader` | crates/andromeda-core/src/udp.rs:137-147 | the specified header and nothing else |
| `PacketBuilders.EncodeHdr` | crates/andromeda-core/src/overlay.rs:89-101 | the eight encoded bytes and nothing else |
| `PacketBuilders.EncapsulateInPlace` | crates/andromeda-core/src/overlay.rs:181-259 | buffer and result are those of the reference builder, error cases included |
| `PacketBuilders.WriteFragNeededReply` | crates/andromeda-core/src/icmp.rs:26-100 | buffer and result are those of the specification, error cases included |
| `PacketBuilders.WriteIcmp` | crates/andromeda-core/src/icmp.rs:84-97 | fields, quote and checksum in place |
| `PacketBuilders.StampInPlace` | crates/andromeda-dataplane/src/pipeline.rs:548-602 | the field writes of `stamp_outer` on a window of a buffer, nothing outside it |
| `PacketBuilders.BuildTemplate` | crates/andromeda-dataplane/src/pipeline.rs:125-148 | the constants and the checksum base of the template |
| `PipelineRefinement.ZeroCopyRefinesCopy` | crates/andromeda-dataplane/src/pipeline.rs:257-454 | for every non-ARP frame and sufficient output buffer the two paths take the same decision, emit the same bytes and leave the same counters, id and NAT state, path-MTU replies included |
| `PipelineRefinement.OneFrame` | crates/andromeda-dataplane/src/pipeline.rs:472-541 | one batch slot against one in-place call: same state and bytes when forwarded, no effect when not |
| `PipelineRefinement.BatchRefinesSequential` | crates/andromeda-dataplane/src/pipeline.rs:456-541 | over pairwise disjoint slots the batch forwards exactly the slots that one call after the other would, with identical bytes, id, NAT state, encapped and natted |
| `PipelineProperties.StampIsReference` | crates/andromeda-dataplane/src/pipeline.rs:548-602 | what the fast path puts on the wire is the reference packet |
| `PipelineProperties.TooBigIff` | crates/andromeda-dataplane/src/pipeline.rs:304-308 | oversized means DF and total length plus 50 above the underlay MTU |
| `PipelineProperties.PathMtuBound` | crates/andromeda-dataplane/src/pipeline.rs:304-322 | copy path: a forwarded don't-fragment frame without padding has a valid outer header whose total length is at most the underlay MTU |
| `PipelineProperties.PathMtuBoundInPlace` | crates/andromeda-dataplane/src/pipeline.rs:410-431 | the same for the zero-copy path |
| `PipelineProperties.PathMtuBoundBatch` | crates/andromeda-dataplane/src/pipeline.rs:498-503 | the same for every forwarded slot of the buffer a whole batch over disjoint slots leaves behind |
| `PipelineProperties.PmtudReplyIsIcmp` | crates/andromeda-dataplane/src/pipeline.rs:304-322 | every reply to an IPv4 frame answers an oversized don't-fragment packet with a well-formed message announcing the underlay MTU less 50, saturating |
| `PipelineProperties.PmtudReplyIsIcmpInPlace` | crates/andromeda-dataplane/src/pipeline.rs:410-431 | the same for the zero-copy path |
| `PipelineProperties.ForwardedToEndpoint` | crates/andromeda-dataplane/src/pipeline.rs:257-358 | a frame for a fabric endpoint is forwarded exactly if it is not oversized and there is room, as the reference packet around the frame with the endpoint's MAC, without touching NAT |
| `Decisions.ResolveIff` | crates/andromeda-dataplane/src/pipeline.rs:292-300 | a route exists exactly if the network has an endpoint for the address or there is a gateway; endpoints without NAT, the gateway with NAT if there is a NAT address |
| `Decisions.CopyDecides` | crates/andromeda-dataplane/src/pipeline.rs:257-358 | the whole decision table of the copy path in terms of bytes, configuration and fabric, every drop reason and length included |
| `Decisions.InPlaceDecides` | crates/andromeda-dataplane/src/pipeline.rs:365-454 | the same for the zero-copy path |
| `Decisions.ReplyIffOversized` | crates/andromeda-dataplane/src/pipeline.rs:302-322 | a routable frame with room gets a path-MTU reply if and only if it is oversized, and is forwarded otherwise, on both paths |
| `Decisions.BatchSlotDecides` | crates/andromeda-dataplane/src/pipeline.rs:472-535 | a batch slot is counted as dropped exactly if oversized, and forwarded exactly if otherwise routable |
| `Decisions.BatchTotals` | crates/andromeda-dataplane/src/pipeline.rs:536-541 | over disjoint slots, the counters move by the oversized packets in the given buffer and by the slots sent |
| `Decisions.CopyCounts` | crates/andromeda-dataplane/src/pipeline.rs:257-358 | every tenant frame is counted once, for its decision; only a forwarded one moves the packet id or NAT |
| `Decisions.InPlaceCounts` | crates/andromeda-dataplane/src/pipeline.rs:365-454 | the same for the zero-copy path |
| `Decisions.ArpAnswered` | crates/andromeda-core/src/arp.rs:72-117 | the answer to an ARP request field by field, with nothing written behind it |
| `Decisions.FlowOfTuple` | crates/andromeda-dataplane/src/pipeline.rs:163-181 | the flow hash is that of the five-tuple wherever there is one |
| `Decisions.FlowWithoutTuple` | crates/andromeda-dataplane/src/pipeline.rs:163-181 | otherwise that of the words where ports would be, or zero |
| `Delivery.GatewayEgress` | crates/andromeda-dataplane/src/pipeline.rs:335-357 | what leaves for the gateway: source translated by the outbound step, checksums kept, hash of the translated tuple; or the frame itself without NAT or five-tuple |
| `Delivery.ForwardedToGateway` | crates/andromeda-dataplane/src/pipeline.rs:292-358 | a frame without endpoint is forwarded exactly if there is a gateway, it is not oversized and there is room, in a packet that decapsulates to it; without a gateway it is dropped |
| `Delivery.DeliveredMeans` | crates/andromeda-dataplane/src/pipeline.rs:629-639 | a delivered frame is untouched if NAT does not redirect its tuple; otherwise only its destination changes, to the endpoint of the flow or rule, and no checksum starts or stops verifying |
| `Delivery.ReplyDelivered` | crates/andromeda-dataplane/src/pipeline.rs:629-639 | the answer to a live flow is delivered to the private endpoint the flow came from |
| `Delivery.UnderlayDelivers` | crates/andromeda-dataplane/src/pipeline.rs:604-643 | a reference packet of a served VNI is delivered as its inner frame through NAT, with nothing written behind it and the counters moved |
| `Delivery.UnderlayDecides` | crates/andromeda-dataplane/src/pipeline.rs:604-643 | the whole decision table of decapsulation for arbitrary frames: passed on untouched exactly if not an overlay packet, each drop, and what is delivered |
| `Delivery.UnderlayIsolates` | crates/andromeda-dataplane/src/pipeline.rs:608-612 | a packet of a VNI the switch does not serve is dropped and changes nothing but the drop counter |
| `Delivery.DeliveredAcrossFabric` | crates/andromeda-dataplane/src/pipeline.rs:257-643 | between two switches, NAT on or off, a frame arrives as sent with the endpoint's destination MAC and is delivered through the second switch's NAT, unchanged if that does not redirect it |
| `PipelineEngine.Engine.constructor` | crates/andromeda-dataplane/src/pipeline.rs:185-204 | a new pipeline: zero counters and id, template built from the config |
| `PipelineEngine.Engine.TranslateInPlace` | crates/andromeda-dataplane/src/pipeline.rs:629-639 | NAT in place: bytes, NAT state and count are those of the specification |
| `PipelineEngine.Engine.EgressInPlace` | crates/andromeda-dataplane/src/pipeline.rs:432-449 | MAC rewrite, SNAT and flow hash of the inner frame in the buffer |
| `PipelineEngine.Engine.EgressAndStamp` | crates/andromeda-dataplane/src/pipeline.rs:505-541 | egress and outer header around a frame in a shared buffer, nothing outside it |
| `PipelineEngine.Engine.EmitFrame` | crates/andromeda-dataplane/src/pipeline.rs:432-454 | the forwarding tail: next id, counters, bytes |
| `PipelineEngine.Engine.EncapTenantFrame` | crates/andromeda-dataplane/src/pipeline.rs:249-358 | decision, buffer and state of `encap_for_vni` are those of the specification |
| `PipelineEngine.Engine.OnTenantFrame` | crates/andromeda-dataplane/src/pipeline.rs:244-247 | the same for the configured VNI |
| `PipelineEngine.Engine.OnTenantFrameInPlace` | crates/andromeda-dataplane/src/pipeline.rs:360-454 | decision, buffer and state of the zero-copy path |
| `PipelineEngine.Engine.EncapSlot` | crates/andromeda-dataplane/src/pipeline.rs:472-536 | one slot of the batch |
| `PipelineEngine.Engine.EncapBatchInPlace` | crates/andromeda-dataplane/src/pipeline.rs:456-541 | buffer, state and count of the batch path, whose id and counters live in locals until the end |
| `PipelineEngine.Engine.OnUnderlayFrame` | crates/andromeda-dataplane/src/pipeline.rs:604-643 | decision, buffer and state of decapsulation with reverse NAT |
| `PipelineEngine.Engine.ReplyFragNeeded` | crates/andromeda-dataplane/src/pipeline.rs:304-322 | the path-MTU reply and its counter, or the drop |
| `PipelineEngine.Engine.AnswerArp` | crates/andromeda-dataplane/src/pipeline.rs:264-283 | the proxy-ARP reply and its counter, or the drop |
| `Umem.MoveKeeps` | crates/andromeda-dataplane/src/afxdp.rs:171-263 | every call and every kernel move keeps each frame in exactly one place |
| `Umem.MoveKeepsCount` | crates/andromeda-dataplane/src/afxdp.rs:171-263 | no move makes a frame appear, disappear or be in two places |
| `Umem.RefillOwnedIff` | crates/andromeda-dataplane/src/afxdp.rs:171-181 | `refill` keeps ownership if and only if the ring reserved all it was asked for or nothing |
| `Umem.TwoPlaces` | crates/andromeda-dataplane/csrc/xsk_shim.c:132-139 | a partial reservation leaves a frame both in the FILL ring and in the free pool |
| `Umem.RunsOwned` | crates/andromeda-dataplane/src/afxdp.rs:353-456 | over every interleaving of program and kernel every frame is in exactly one place |
| `Umem.AllocatedIsFresh` | crates/andromeda-dataplane/src/afxdp.rs:218-231 | a frame just allocated for transmission is none of those in hand, so the two views never alias |
| `Umem.OpenOwned` | crates/andromeda-dataplane/src/afxdp.rs:135-137 | the initial addresses are distinct |
| `Umem.AllocUndoesRecycle` | crates/andromeda-dataplane/src/afxdp.rs:228-236 | the free pool is a stack: a recycled frame is the next one allocated |
| `Umem.TxRefused` | crates/andromeda-dataplane/src/afxdp.rs:238-243 | a frame the TX ring refuses stays in hand |
| `Umem.BurstsCompose` | crates/andromeda-dataplane/src/afxdp.rs:186-203 | the RX ring is a queue: two bursts in a row take what one would |
| `Umem.CompletionsCompose` | crates/andromeda-dataplane/src/afxdp.rs:254-263 | so is the completion ring |
| `LoopSpec.ReplenishCounts` | crates/andromeda-dataplane/src/afxdp.rs:450-453 | how many frames come back and how many go to the FILL ring at the end of a round |
| `LoopSpec.FrameCounts` | crates/andromeda-dataplane/src/afxdp.rs:397-447 | a received frame goes back to the pool, and exactly the frame sent leaves it for the TX ring |
| `LoopSpec.TenantCounts` | crates/andromeda-dataplane/src/afxdp.rs:590-633 | forwarded frames go out of the underlay, answers out of the tenant port |
| `LoopSpec.UnderlayCounts` | crates/andromeda-dataplane/src/afxdp.rs:635-663 | delivered frames go out of the tenant port |
| `LoopSpec.DrainedCounts` | crates/andromeda-dataplane/src/afxdp.rs:388-447 | a burst takes what the RX ring holds up to the batch; each frame goes back to the pool or, one for one, onto the TX ring |
| `LoopSpec.TenantBurstCounts` | crates/andromeda-dataplane/src/afxdp.rs:590-633 | the same for a burst from the tenant, over both ports |
| `LoopSpec.UnderlayBurstCounts` | crates/andromeda-dataplane/src/afxdp.rs:635-663 | the same for a burst from the underlay |
| `LoopSpec.RunSnoc` | crates/andromeda-dataplane/src/afxdp.rs:361-454 | a round of `run` is kernel, burst, completions, refill, after all the rounds before it |
| `LoopSpec.SwitchSnoc` | crates/andromeda-dataplane/src/afxdp.rs:535-672 | a round of `run_switch` is both bursts, then completions and refill on both ports, after all the rounds before it |
| `ForwardingLoop.XskSocket.constructor` | crates/andromeda-dataplane/src/afxdp.rs:111-150 | after opening, every frame is in exactly one place and none is in hand |
| `ForwardingLoop.XskSocket.RefillRing` | crates/andromeda-dataplane/src/afxdp.rs:169-181 | frames pass from the free pool to the FILL ring; ownership is kept |
| `ForwardingLoop.XskSocket.ReceiveBurst` | crates/andromeda-dataplane/src/afxdp.rs:186-203 | received frames pass into hand, at most the burst size |
| `ForwardingLoop.XskSocket.AllocFrame` | crates/andromeda-dataplane/src/afxdp.rs:228-231 | a free frame that was not in hand, or none exactly if the pool is empty |
| `ForwardingLoop.XskSocket.RecycleFrame` | crates/andromeda-dataplane/src/afxdp.rs:233-236 | the frame in hand returns to the pool |
| `ForwardingLoop.XskSocket.Transmit` | crates/andromeda-dataplane/src/afxdp.rs:238-243 | the frame passes to the TX ring if it has room, else stays in hand |
| `ForwardingLoop.XskSocket.Complete` | crates/andromeda-dataplane/src/afxdp.rs:254-263 | completed frames return to the pool |
| `ForwardingLoop.BuildFrame` | crates/andromeda-dataplane/src/afxdp.rs:229-243 | a frame none of those in hand is taken, then queued or given back; sent exactly if the pool had one, the packet was to be sent and the ring had room |
| `ForwardingLoop.HandleFrame` | crates/andromeda-dataplane/src/afxdp.rs:397-447 | one frame of `run` in each mode: where both frames end up, and exactly when something is sent |
| `ForwardingLoop.TenantToUnderlay` | crates/andromeda-dataplane/src/afxdp.rs:590-633 | forwarded frames leave on the underlay port, replies on the tenant port, and exactly when something is sent |
| `ForwardingLoop.UnderlayToTenant` | crates/andromeda-dataplane/src/afxdp.rs:635-663 | delivered frames leave on the tenant port, and exactly when one is sent |
| `ForwardingLoop.Drain` | crates/andromeda-dataplane/src/afxdp.rs:390-447 | the burst of one round of `run`, frame by frame, with its counts |
| `ForwardingLoop.Replenish` | crates/andromeda-dataplane/src/afxdp.rs:450-453 | completions come back, then the FILL ring is topped up |
| `ForwardingLoop.Run` | crates/andromeda-dataplane/src/afxdp.rs:353-456 | over any number of rounds every frame ends up where the rounds put it, none leaks; encapsulating, rx = tx + dropped, tied to the rings; otherwise nothing is transmitted |
| `ForwardingLoop.RunSwitch` | crates/andromeda-dataplane/src/afxdp.rs:521-674 | over any number of rounds every frame of both ports ends up where the rounds put it, none leaks, and rx = tx + dropped, tied to the rings |

## Left out

- The command line, configuration file, control socket, printing and benchmarks, multi-queue workers, CPU pinning and signals: no forwarding logic.
- Replacing the fabric while the switch runs: the fabric is a fixed map from (VNI, address) to next hop, and a set of served VNIs.
- Adding DNAT rules or changing the idle timeout in the middle of a run: runs start from a configured engine; `EvictionWindow` needs one timeout.
- The mixing function of `flow_hash`: an arbitrary function of addresses, protocol and ports in the configuration, so every result holds for any hash.
- The general release/acquire memory model: ring loads return any value between the last one observed and the current one. Requests above 2^63 elements, for which no power of two fits `usize`, are excluded.
- Clock, poll, ring occupancy and kernel progress: inputs of the operations, unconstrained except that a FILL reservation is all or nothing.
- Frame contents in the forwarding loops: each frame's verdict is an input there; the handlers themselves are modelled in `PipelineEngine`.
- Descriptor clamping in the C shim and in `rx_burst`, byte counters of the loops, and a UMEM frame size of zero.
- Width of the statistics counters: natural numbers instead of 64-bit.
- Debug assertions and debug overflow checks: the model has the release behaviour, in which 16-bit lengths wrap.
- The `dnat_hits` counter of the NAT statistics, which no operation updates.
- IP fragments and Ethernet padding: treated as the code does, without further claims.


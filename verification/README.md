# Verification model of the TUN engine

This project models the packet core of the TUN engine in Dafny and proves what that core is for: that
offloading loses and duplicates nothing, and when exactly it keeps the order of a UDP flow or a TCP
connection; that the NAT table stays consistent under every interleaving of lookups and the collector and
translates transparently; that the byte ring and the stream protocol over it deliver every byte; that
route and uid sets mean what the configuration says; and that framing survives partial I/O.

`dafny verify dfyconfig.toml` checks everything. Where the program changes state in place, the model has a
class or array methods, each tied by its `ensures` to a specification function; the properties are then
lemmas about that function. Concurrent code is a step system whose runs are arbitrary interleavings.

## How the files fit together

| files | part |
|---|---|
| `Arith`, `Bytes`, `Wire` | quotients and ring positions; octets, big-endian fields, fixed IP headers; the same fields read octet by octet |
| `Checksum`, `VirtioNet` | one's-complement sums and their loops; the 10-octet header codec |
| `GsoSplit`, `GsoProperties`, `GsoFindings` | splitting an offloaded packet |
| `Gro`, `GroDecision`, `GroItems`, `GroMerge`, `GroInvariant`, `GroSteps`, `GroAccount`, `GroRun` | merging: specification, invariant, and the round trip over whole batches |
| `GroWire`, `GroOutcome` | the same round trip as the receiver reads it from the octets; when exactly a packet is merged |
| `GroProcedure`, `GroBatch` | merging as it runs, on buffers and tables in place |
| `GroFlow`, `GroOrder`, `GroTcpOrder` | when a UDP flow and when a TCP connection keeps its order |
| `GroInverse`, `GroFindings` | merging undoes splitting; exact capacity and batches out of order |
| `NatTable`, `NatSystem`, `NatSolo`, `NatCollector`, `NatClear` | the NAT table: the object, its interleavings, a task alone, the collector, and `clear` |
| `NatRewrite`, `MssOption`, `NatProperties`, `NatHandler`, `NatEndToEnd` | packet rewriting and end-to-end transparency |
| `Ring`, `RingSystem`, `Stream`, `StreamProgress`, `StreamFindings` | the byte ring alone, under concurrency, and the stream protocol over it, safe and live |
| `Cidr`, `CidrProperties`, `CidrRoutes`, `Uid` | prefix and uid set algebra |
| `TunReader`, `ReaderFindings`, `TunWriter`, `BatchWrite`, `SharedDevice` | the framing state machines, the batch write path, and both writers on one device |
| `Fragment`, `Reassembly`, `FragmentProperties`, `FragmentFindings` | IPv4 fragmentation against section 3.2 of RFC 791 |

## What the model found

Where the code falls short of its own comments or of what one would expect, there is a run or an input
that shows it and a theorem that says exactly when it happens.

- Merging at exact capacity. With buffers of exactly the packet's size, as `do_batch_write` allocates them
  (`src/tun/native_tun.rs:394-402`), `handle_gro` merges nothing (`GroFindings.ExactCapacityNeverMerges`),
  although the comments at lines 384-392 say it does. The merging results are therefore stated for
  arbitrary capacities.
- The order of a UDP flow. Some packets of a flow are passed by (no data, wrong lengths, IP options,
  fragments) and written on their own; a later datagram that joins an earlier buffer overtakes them
  (`GroFindings.EmptyDatagramIsOvertaken`). All packets of the flow come out in order exactly when no packet
  passed by lies between the buffer of an item and a datagram that joins it (`GroOrder.UdpOrderIff`), so
  always when all packets of the flow are whole, have data and right lengths
  (`GroOrder.RegularFlowKeepsOrder`).
- The order of a TCP connection. Segments of all acknowledgement numbers and the packets passed by come out
  in their order of arrival if none is put in front of another, by a prepend or by an append to a buffer
  with one of them behind it; and if no two of them are alike, only if
  (`GroTcpOrder.ConnectionOrderIff`). Segments that arrive in sequence, with gaps or without, keep their order
  (`GroTcpOrder.InSequenceKeepsOrder`); a bare acknowledgement between two of them does not
  (`GroFindings.BareAckIsOvertaken`).
- UDP checksums of zero. A computed UDP checksum of 0 is stored as 0, which RFC 768 reads as no checksum and
  section 8.1 of RFC 8200 forbids for IPv6 (`GsoFindings.UdpChecksumIsZero`). It happens exactly when the sum
  over the pseudo header and the segment without checksum is a non-zero multiple of 65535
  (`GsoProperties.SegmentUncheckedIff`, `GsoProperties.SingleUncheckedIff`).
- A clear in the collector's round. `TcpNat::clear` between the collector's snapshot and its removal, with the
  connection looked up again on a port of the snapshot or its neighbour, leaves the two maps different with no
  lock held (`NatClear.ClearedAndTorn` is such a run). Over all runs with any number of clears the maps are
  right whenever no clear is half done, exactly when every removal takes whole pairs and nothing was inserted
  between the halves of a clear (`NatClear.RightIffAllGood`); a removal that takes half a pair has a clear
  between its round's start and itself (`NatClear.BadRemovalNeedsClear`).
- Octets behind the IP length. The NAT sums the TCP checksum over the whole buffer
  (`src/tun/mod.rs:2729-2759`), a receiver over the IP length. The receiver accepts the rewritten packet exactly
  when the two differ by a multiple of 65535 (`NatProperties.ReceiverAcceptsIff`), so always when nothing is
  behind the IP length.
- A batch between the parts of a frame. `do_batch_write` does not look at the staged frame of `poll_write`; the
  stream stays framed exactly when nothing of that frame was out (`SharedDevice.BatchWhileStaged`,
  `SharedDevice.WholeIff`).
- A session in use is collected. In a run from the start a session refreshed after the collector's snapshot
  is removed at the moment it was last active (`NatCollector.RefreshedAndRemoved`). What a round removes is
  exactly what its filter found idle (`NatCollector.TakenIff`), and a removed session is active exactly when
  it was refreshed between the filter and the removal (`NatCollector.RemovedThoughActiveIff`).
- Early EOF. `poll_read` can report EOF with data in the buffer (`StreamFindings.EofBeforeData`), exactly
  when the stack stores bytes between the poll's retest and its flag tests; with a close flag set at the
  retest it cannot (`StreamFindings.EofAfterDataIff`). The comment at
  `src/tun/netstack/tcp_listener.rs:44-48` promises EOF only after draining.
- A lost close wakeup. A writer sleeps for good exactly when its retest, not notified, found the buffer full
  on a socket that had already been removed (`StreamFindings.SleepsForGoodIff`); a run in which it does is
  `StreamFindings.WriteCloseIsMissed`. A writer that slept before `write_closed` was set is woken for it
  (`StreamFindings.ClosedWriterIsWoken`).
- Routes with host bits. A route with host bits set loses addresses (`CidrProperties.HostBitsLoseRoutes`);
  `CidrProperties.CompleteIff` has the exact condition, the first host bit at which the recursion splits.
- Fragment checksums. The header checksum of a fragment is complemented twice. It verifies exactly when the
  packet's header, with the fragment's length and bits and no checksum, sums to a multiple of 65535
  (`Fragment.ChecksumIff`), so not for a plain packet of 28 octets
  (`FragmentFindings.PlainFragmentFails`).
- Fragment offsets. Fragments reassemble exactly when the last one's offset fits 13 bits
  (`FragmentProperties.FragmentsReassemble`); `FragmentFindings.LateFragmentIsMisplaced` is one that does not.
- Reads after an error. An error loses exactly the segments that were still queued
  (`TunReader.LinuxTunReader.DoBatchRead`); `ReaderFindings.QueuedSegmentIsLost` is such a read sequence.

## Model

| member | source | states |
|---|---|---|
| Checksum.FoldLoop | src/tun/gso.rs:191-194 | the carry loop ends in 16 bits with the residue modulo 65535, zero only for zero |
| Checksum.Sum | src/tun/gso.rs:181-195 | the word loop gives the folded exact sum; below 131072 octets its u32 accumulator does not wrap |
| Checksum.WordSumPads | src/tun/gso.rs:181-195 | words are two octets, the high one first, and an odd last octet counts as if a zero followed |
| Checksum.Combine | src/tun/gso.rs:198-204 | combining two sums is summing both |
| Checksum.PseudoHeader | src/tun/gso.rs:207-228 | the folded pseudo header sum of both IP versions |
| Checksum.InternetChecksum | src/tun/mod.rs:2692-2706 | the complemented form used outside GSO |
| Checksum.PiecewiseSum | src/tun/gso.rs:181-204 | summing even pieces through `initial` or through combining equals summing the whole |
| Checksum.StoredChecksumVerifies | src/tun/gso.rs:404-414 | zero, compute, store: the region then verifies, whatever the start value |
| Checksum.VerifiesIff | src/tun/gso.rs:247 | a region verifies exactly when its sum is a non-zero multiple of 65535 |
| Checksum.AccumulatorFits | src/tun/gso.rs:182-190 | no overflow of the accumulator up to 131072 octets |
| Checksum.AccumulatorBoundIsTight | src/tun/gso.rs:182-190 | beyond that, all-ones data overflows it |
| VirtioNet.DecodeEncode | src/tun/gso.rs:62-119 | decoding an encoded header gives it back, in either byte order |
| VirtioNet.EncodeDecode | src/tun/gso.rs:62-119 | every ten octets are the encoding of what they decode to |
| VirtioNet.HeaderLayout | src/tun/gso.rs:62-119 | each field at its own octets: flags, type, and four words in host order |
| VirtioNet.OptionsIff | src/tun/gso.rs:153-175 | types 0, 1, 3 and 5 are understood and no other, each field under its name |
| GsoSplit.SplitInto | src/tun/gso.rs:259-420 | fills the output buffers and sizes with the specified segments, or fails with the specified error, for every header it does not panic on |
| GsoSplit.SplitLoop | src/tun/gso.rs:341-419 | the segment loop writes segment k into buffer k and fails only when buffers run out |
| GsoProperties.SegmentIsValid | src/tun/gso.rs:341-419 | each segment, read octet by octet: its slice of the data, its own length and ID, advanced sequence number, FIN and PSH clear but on the last, every other flag and header octet the input's, and both checksums verify |
| GsoProperties.SegmentsTile | src/tun/gso.rs:341-419 | the segments' data concatenates to the original, and their number is the length over the size, rounded up |
| GsoProperties.SplitIsComplete | src/tun/gso.rs:259-420 | success exactly when ceil(data/gso_size) buffers are there, and then every segment is right in that sense |
| GsoProperties.SucceedsIff | src/tun/gso.rs:259-420 | for any header that does not panic: success exactly when offsets lie inside and the buffers suffice |
| GsoProperties.FailsWith | src/tun/gso.rs:259-420 | and otherwise the error of the first test that does not pass |
| GsoProperties.SingleIs | src/tun/gso.rs:279-299 | the unsegmented packet comes out alone, changed in its checksum only and only if asked for |
| GsoProperties.DataKept | src/tun/gso.rs:259-420 | for any header with its checksum outside the data: the data comes out whole and in order |
| GsoProperties.SingleVerifies | src/tun/gso.rs:279-299 | the unsegmented path completes the partial checksum |
| GsoProperties.SegmentUncheckedIff | src/tun/gso.rs:404-414 | a segment's stored checksum is zero exactly when the sum over the segment without it is a non-zero multiple of 65535 |
| GsoProperties.SingleUncheckedIff | src/tun/gso.rs:291-296 | the same for the unsegmented path |
| GsoFindings.UdpChecksumIsZero | src/tun/gso.rs:404-414 | an IPv6 UDP packet whose first segment gets checksum zero |
| GroDecision.TcpDecisionIff | src/tun/gso.rs:645-700 | a segment is appended or prepended exactly when it is alike, adjacent in sequence space, and size and PSH allow |
| GroDecision.UdpDecisionIff | src/tun/gso.rs:702-721 | a datagram is appended exactly when it is alike, no longer, and the item is full |
| GroMerge.NewItemOk | src/tun/gso.rs:900-924 | a packet that goes to the table satisfies the table invariant and stands for itself |
| GroMerge.AppendOk | src/tun/gso.rs:779-811 | an append keeps ceil(L/gso_size) = num_merged + 1 and adds the segment at the end |
| GroMerge.PrependOk | src/tun/gso.rs:751-778 | a prepend keeps it and adds the segment at the front |
| GroMerge.UdpAppendOk | src/tun/gso.rs:814-843 | the same for datagrams |
| GroSteps.WalkIs | src/tun/gso.rs:938-975 | the backward walk drops only unmerged items with wrong checksums and merges with the newest item that takes the packet, or none |
| GroSteps.TcpGroKeeps | src/tun/gso.rs:854-992 | one TCP packet keeps the invariant and is accounted for exactly once, behind or in front of what the item that takes it has |
| GroSteps.UdpGroKeeps | src/tun/gso.rs:995-1073 | one UDP packet likewise, behind everything of its flow |
| GroSteps.StepKeeps | src/tun/gso.rs:1212-1246 | so does every round of the loop |
| GroAccount.ExpandMergedTcp | src/tun/gso.rs:1076-1136 | splitting a merged TCP packet by the header written in front of it gives the segments merged into it |
| GroAccount.ExpandMergedUdp | src/tun/gso.rs:1139-1197 | the same for UDP, in order |
| GroRun.RunKeeps | src/tun/gso.rs:1204-1250 | the invariant holds after any number of packets |
| GroRun.GroRoundTrip | src/tun/gso.rs:1204-1250 | for every batch in buffers with zeroed header octets and room for up to 65535 octets: splitting what is written yields every packet exactly once, with the checksum verdict it came with, and the datagrams merged of each UDP flow in order |
| GroWire.ReadIs | src/tun/gso.rs:456-541 | candidate test, parser and flow key read a packet as a literal reading of its octets does: what is taken, and addresses, ports, acknowledgement number, class, options, sequence number, data, checksum verdict |
| GroWire.TcpKeyIff | src/tun/gso.rs:497-517 | two segments share a table entry exactly when IP version, addresses, ports and acknowledgement number are the same octets |
| GroWire.UdpKeyIff | src/tun/gso.rs:529-541 | two datagrams exactly when IP version, addresses and ports are |
| GroWire.RoundTrip | src/tun/gso.rs:1204-1250 | the round trip between those readings: what the receiver reads is what came in, packet by packet, merged or not |
| GroWire.TcpAccountedIs | src/tun/gso.rs:1097-1128 | a merged segment gets right lengths, a header checksum that verifies and the pseudo header sum; every other octet stays |
| GroWire.UdpAccountedIs | src/tun/gso.rs:1158-1189 | a merged datagram likewise, and its UDP length |
| GroOutcome.TcpOutcomeIff | src/tun/gso.rs:854-992 | a segment is merged exactly when some item of its flow is willing and its checksum right, passed by when it is wrong, else put in the table |
| GroOutcome.WillingIff | src/tun/gso.rs:645-811 | an item is willing exactly when the packets are alike and adjacent, size, PSH and room allow, and its own checksum is right: for an append and for a prepend |
| GroProcedure.CheckTransport | src/tun/gso.rs:230-248 | the receiver's checksum test |
| GroProcedure.CoalesceTcpPackets | src/tun/gso.rs:735-811 | resize, copy and swap of buffer slots do what the specification says |
| GroProcedure.CoalesceUdpPackets | src/tun/gso.rs:814-843 | likewise for UDP |
| GroProcedure.WalkItems | src/tun/gso.rs:938-975 | the loop over a flow's items |
| GroProcedure.TcpGroRound | src/tun/gso.rs:854-992 | `tcp_gro` on buffers and table in place, as specified |
| GroProcedure.UdpGroRound | src/tun/gso.rs:995-1073 | `udp_gro` on buffers and table in place, as specified |
| GroProcedure.ApplyTcpAccounting | src/tun/gso.rs:1076-1136 | every TCP item's buffer is rewritten once, no other, in any order of the hash map |
| GroProcedure.ApplyUdpAccounting | src/tun/gso.rs:1139-1197 | likewise for UDP |
| GroBatch.HandleGro | src/tun/gso.rs:1204-1250 | on such buffers the whole procedure does what the specification says, including the state an invalid offset leaves behind |
| GroInverse.GsoGroIdentity | src/tun/gso.rs:259-420 | the segments of a kernel GSO packet, merged again, are that packet octet for octet behind the same header |
| GroInverse.NextStep | src/tun/gso.rs:854-992 | each next segment is appended to the one buffer |
| GroInverse.KernelIsAccounted | src/tun/gso.rs:1097-1128 | accounting leaves a kernel packet as it is |
| GroFindings.ExactCapacityNeverMerges | src/tun/native_tun.rs:391-415 | buffers of exact capacity are written unmerged, in their order |
| GroFindings.ExactCapacityWritesAsIs | src/tun/native_tun.rs:391-415 | and accounting leaves each of them as it came |
| GroFindings.EmptyDatagramIsOvertaken | src/tun/gso.rs:1030-1033 | a concrete batch in which a datagram without data is overtaken by one of its flow |
| GroOrder.PassedIff | src/tun/gso.rs:1007-1033 | of a flow's packets merging passes by exactly those without data, with wrong lengths, with IP options or fragments |
| GroOrder.JoinsIff | src/tun/gso.rs:1053-1061 | a datagram joins its flow's newest buffer exactly when it is of the same class, no longer, the segments there are full, there is room and the checksums verify |
| GroOrder.UdpOrderIff | src/tun/gso.rs:995-1073 | for every batch, capacity and flow: all its packets come out in order exactly when none that is passed by lies between a buffer and a later datagram that joins it |
| GroOrder.RegularFlowKeepsOrder | src/tun/gso.rs:995-1073 | so a flow whose packets in the batch have data and consistent lengths keeps its order |
| GroTcpOrder.ConnectionOrderIff | src/tun/gso.rs:854-992 | for every batch, capacity and connection: all its packets come out in order if none is put in front of an earlier one, and only if where no two are alike |
| GroTcpOrder.InSequenceKeepsOrder | src/tun/gso.rs:854-992 | so a connection whose segments arrive in sequence, of any acknowledgement numbers, with or without gaps, keeps its order |
| GroFindings.BareAckIsOvertaken | src/tun/gso.rs:906-909 | a batch in which a segment gets in front of a bare acknowledgement of its connection |
| NatTable.CyclicSteps | src/tun/mod.rs:551-571 | probing starts at the cursor, or at 10000 outside the range, and goes up one by one, from 65535 to 10000 |
| NatTable.CyclicVisitsOnce | src/tun/mod.rs:551-571 | from every cursor value a round of probing visits each of the 55536 ports exactly once |
| NatTable.FirstFreeOrExhausted | src/tun/mod.rs:551-571 | the probe fails exactly when every port is taken |
| NatTable.FirstFreeExists | src/tun/mod.rs:551-571 | otherwise there is a first free port in cyclic order |
| NatTable.FirstFreeIsUnique | src/tun/mod.rs:551-571 | and only one |
| NatTable.TcpNat.AllocatePortLocked | src/tun/mod.rs:551-571 | returns that port and advances the cursor past it, through the wrap at 65536 |
| NatTable.TcpNat.LookupOrInsert | src/tun/mod.rs:510-546 | hit, insert or exhaustion, with both maps and all timestamps stated |
| NatTable.TcpNat.LookupBack | src/tun/mod.rs:575-588 | the session of a port, refreshed at most once a second |
| NatTable.TcpNat.Gc | src/tun/mod.rs:592-616 | without other tasks, exactly the idle sessions go, from both maps |
| NatTable.InsertKeepsInverse | src/tun/mod.rs:541-544 | inserting a new pair keeps the maps inverse |
| NatTable.RemoveKeepsInverse | src/tun/mod.rs:612-615 | removing pairs keeps them inverse |
| NatSystem.MapsStayInverse | src/tun/mod.rs:510-616 | in every interleaving: maps inverse when no write lock is held, no flow with two ports, snapshots name live pairs |
| NatSystem.StepKeeps | src/tun/mod.rs:510-616 | the invariant behind it holds across every step |
| NatSystem.AnswersAreLive | src/tun/mod.rs:510-588 | an answer is a live pair at that moment, and None only when the range is full |
| NatSystem.SamePortThroughout | src/tun/mod.rs:514-531 | a flow keeps its port while it is in the table: the double check |
| NatSystem.LiveUntilCollected | src/tun/mod.rs:592-616 | a live pair stays live until the collector takes that very port |
| NatSystem.NoDeadlock | src/tun/mod.rs:514-611 | the lock order leaves some task or the collector able to step |
| NatSolo.LookupAlone | src/tun/mod.rs:510-540 | a lookup that nobody interrupts is one operation: the flow's port, refreshed after a second, or the first free port in both maps and the cursor behind it, or None with the maps as they were |
| NatSolo.BackAlone | src/tun/mod.rs:573-588 | likewise `lookup_back`: the session of the port, refreshed after a second |
| NatCollector.RoundIs | src/tun/mod.rs:592-609 | in every run a round reads its clock when it starts, and before it leaves its filter has looked at every session that was in the table when it took the lock |
| NatCollector.TakenIff | src/tun/mod.rs:592-616 | in every run a round takes a session exactly when it was idle, by the round's clock reading, when the filter looked at it |
| NatCollector.RemovedThoughActiveIff | src/tun/mod.rs:592-616 | a session is not idle when it is taken exactly when a lookup refreshed it between the filter and the removal |
| NatCollector.RefreshedAndRemoved | src/tun/mod.rs:592-616 | a run from the empty table in which a session is removed at the moment of its last activity |
| NatClear.RightIffAllGood | src/tun/mod.rs:592-626 | with clears: the maps are right whenever no clear is half done, exactly when every removal takes whole pairs and nothing is inserted between the halves of a clear |
| NatClear.RightIsInverse | src/tun/mod.rs:541-626 | right maps are inverse when no write lock is held |
| NatClear.BadRemovalNeedsClear | src/tun/mod.rs:592-626 | a removal that takes half a pair has a clear between its round's start and itself |
| NatClear.RemovedIsLoop | src/tun/mod.rs:610-615 | the removal as one step is what the collector's steps under both locks come to |
| NatClear.ClearedAndTorn | src/tun/mod.rs:592-626 | a run from the empty table that ends with the maps different and no lock held |
| NatRewrite.ClampTcpMss | src/tun/mod.rs:2803-2855 | the option walk in place |
| NatRewrite.ClampedMss | src/tun/mod.rs:2803-2855 | the announced MSS is bounded, found where it was, and nothing else changes |
| MssOption.SynMssIff | src/tun/mod.rs:2803-2855 | the MSS value is found at a place exactly when the packet is a SYN and whole options stand in front of a well-formed MSS option there |
| NatRewrite.ChecksumWithPseudoV4 | src/tun/mod.rs:2880-2912 | the complemented sum over pseudo header and data |
| NatRewrite.ChecksumWithPseudoV6 | src/tun/mod.rs:2914-2943 | likewise, with a 32-bit length |
| NatRewrite.RecomputeTcpChecksum | src/tun/mod.rs:2729-2759 | rewrites the TCP checksum in place |
| NatRewrite.RecomputeIpv4Checksum | src/tun/mod.rs:2713-2726 | rewrites the header checksum over all IHL octets, or leaves a senseless header alone |
| NatRewrite.Rewrite | src/tun/mod.rs:2035-2050 | endpoints, MSS and checksums of a copy of the packet |
| NatProperties.RewrittenIsValid | src/tun/mod.rs:1996-2050 | the rewritten packet, read octet by octet, has the new endpoints, an MSS that is lowered if it is above the limit, is otherwise the old one, and verifies |
| NatProperties.ReceiverAcceptsIff | src/tun/mod.rs:2729-2759 | a receiver that goes by the IP length accepts the rewritten packet exactly when the octets behind it add a multiple of 65535 |
| NatHandler.GlobalUnicastIff | src/tun/mod.rs:133-166 | the filter rejects exactly 0.0.0.0, 224.0.0.0/4, 255.255.255.255, and ::, ::1, fe80::/10, ff00::/8 |
| NatHandler.HandleTcp | src/tun/mod.rs:1935-2176 | for every packet and table, from the octets: returned from a listener to the session's endpoints, mirrored for a loopback address, delivered to a listener for any other unicast address unless the flow is new and no port is free, dropped otherwise; and the table left behind |
| NatHandler.AcceptTarget | src/tun/mod.rs:1588-1597 | the accept loop gets the original destination of the peer port |
| NatHandler.ForwardIsDelivered | src/tun/mod.rs:2029-2050 | a forwarded packet comes from (client, NAT port) to the TCP listener, or for port 53 under hijack to the DNS listener, and is valid |
| NatHandler.ReplyIsReturned | src/tun/mod.rs:1976-2003 | a listener's packet goes from the session's destination to its source, and is valid; none for a session of the other IP version |
| NatHandler.ReflectIsMirrored | src/tun/mod.rs:2011-2027 | a packet to a loopback address comes back with addresses swapped and ports kept, and is valid |
| NatHandler.ReplyIsTransparent | src/tun/mod.rs:1976-2003 | through the handler: the answer, also of the DNS listener, comes from the original destination to the original source |
| NatEndToEnd.Traffic | src/tun/mod.rs:510-588 | any packets, lookups and answers of other connections leave every session of the table alone |
| NatEndToEnd.ThereAndBack | src/tun/mod.rs:1935-2176 | a packet through the NAT to the listener, other traffic, the accept loop, more traffic, the answer back: original destination at the accept loop, endpoints swapped on return, also for the DNS listener |
| Ring.LockFreeRingBuffer.EnqueueSlice | src/tun/netstack/ring_buffer.rs:27-63 | appends as much as fits with one byte left free |
| Ring.LockFreeRingBuffer.DequeueSlice | src/tun/netstack/ring_buffer.rs:66-102 | removes the oldest bytes into the caller's buffer |
| Ring.LockFreeRingBuffer.IsEmpty | src/tun/netstack/ring_buffer.rs:104-106 | exactly when nothing is held |
| Ring.LockFreeRingBuffer.IsFull | src/tun/netstack/ring_buffer.rs:108-112 | exactly when capacity - 1 bytes are held |
| Ring.WrittenIsAdded | src/tun/netstack/ring_buffer.rs:42-60 | a copy round the end adds to what is held and disturbs none of it |
| RingSystem.RingIsFifo | src/tun/netstack/ring_buffer.rs:27-102 | in every interleaving with stale positions: received is a prefix of sent, at most capacity - 1 held, regions apart |
| RingSystem.StepIsQueueStep | src/tun/netstack/ring_buffer.rs:27-102 | every step is an append to, a removal from, or no change of an unbounded queue |
| RingSystem.LoadsGoOn | src/tun/netstack/ring_buffer.rs:32-36 | the size computations do not underflow |
| RingSystem.LoadsAreExact | src/tun/netstack/ring_buffer.rs:27-83 | the size a call settles on is what the queue leaves at its load: the smaller of data and space, of room and bytes |
| RingSystem.CallsGoOn | src/tun/netstack/ring_buffer.rs:27-102 | neither side waits: each can take its next step, and only so many before its call returns |
| RingSystem.EnqueueIsAtomic | src/tun/netstack/ring_buffer.rs:27-63 | in every run a call adds, at its store, exactly the bytes that fitted at its load |
| RingSystem.DequeueIsAtomic | src/tun/netstack/ring_buffer.rs:66-102 | and takes exactly the oldest bytes there were at its load |
| RingSystem.EmptyAndFull | src/tun/netstack/ring_buffer.rs:104-112 | the two tests are exact at the moment of their loads |
| RingSystem.AnswersStay | src/tun/netstack/ring_buffer.rs:104-112 | data does not vanish, nor space, until the side that asked acts |
| Stream.StreamsAreFifo | src/tun/netstack/tcp_stream.rs:71-156 | both directions deliver a prefix of what was put in |
| Stream.DrainBeforeFin | src/tun/netstack/tcp_listener.rs:445-483 | when the send half is closed every accepted byte has been handed over, and none is accepted afterwards |
| StreamProgress.PassDoes | src/tun/netstack/tcp_listener.rs:401-520 | over any run, what a whole pass does: bytes stored and handed on, the peer's FIN and a closed send half reported, the send half closed after a shutdown or a drop unless bytes are left, which are then fewer, and exactly an inactive socket removed |
| StreamProgress.ShutdownCloses | src/tun/netstack/tcp_listener.rs:451-457 | a shutdown seen with an empty buffer has closed the send half by the next test |
| StreamProgress.DropCloses | src/tun/netstack/tcp_listener.rs:468-495 | a drop seen has closed it by the end unless bytes are left that the socket does not take |
| StreamProgress.StackAdvances | src/tun/netstack/tcp_listener.rs:401-520 | every step inside a pass goes on to a later station or uses up bytes or room, so a pass ends |
| StreamProgress.StackCanStep | src/tun/netstack/tcp_listener.rs:401-520 | and until the socket is removed the stack can always step |
| StreamProgress.ClosesHaveCauses | src/tun/netstack/tcp_listener.rs:433-464 | in every run a close flag is set only for its cause: the peer's FIN behind the last byte, a closed send half, an inactive socket, a drop |
| StreamProgress.ReadAnswers | src/tun/netstack/tcp_stream.rs:71-119 | a read delivers the first of what is there, as much as there is room for, or saw the buffer empty and sleeps exactly when no close flag was set |
| StreamProgress.WriteAnswers | src/tun/netstack/tcp_stream.rs:121-156 | a write takes all that fits when it may, nothing when it is refused, and sleeps only on a buffer it found full twice |
| StreamProgress.ShutdownAndDrop | src/tun/netstack/tcp_stream.rs:19-170 | when a shutdown returns the stack can see it; a drop leaves its three flags set |
| Stream.ReaderIsWoken | src/tun/netstack/tcp_stream.rs:83-104 | a sleeping reader with data or a close flag to see is about to be woken |
| Stream.WriterIsWoken | src/tun/netstack/tcp_stream.rs:137-148 | a sleeping writer with space is about to be woken |
| Stream.ReaderWakeComes | src/tun/netstack/tcp_listener.rs:401-443 | each step of the pass brings that wake nearer |
| Stream.WriterWakeComes | src/tun/netstack/tcp_listener.rs:416-431 | likewise for the writer |
| StreamFindings.ClosedWriterIsWoken | src/tun/netstack/tcp_listener.rs:459-464 | a writer that slept before write_closed was set is about to be woken when it is set |
| StreamFindings.SleepsForGoodIff | src/tun/netstack/tcp_stream.rs:126-148 | in every run a writer sleeps for good exactly when its retest, unnotified, found the buffer full after the socket was removed |
| StreamFindings.WriteCloseIsMissed | src/tun/netstack/tcp_stream.rs:126-148 | a run in which one does |
| StreamFindings.EofAfterDataIff | src/tun/netstack/tcp_stream.rs:83-99 | EOF comes after all data exactly when nothing was stored between retest and flag tests, which a close flag set at the retest ensures |
| StreamFindings.EofBeforeData | src/tun/netstack/tcp_stream.rs:83-99 | a run in which EOF is reported with data present |
| Cidr.CoversBits | src/tun/platform/linux.rs:1194-1208 | a prefix covers exactly the addresses whose first `len` bits are its own |
| CidrProperties.SubtractionIsExact | src/tun/platform/linux.rs:1243-1274 | for a canonical route: routed exactly when in the route and in no exclude |
| CidrProperties.NothingExcluded | src/tun/platform/linux.rs:1243-1274 | for any route: no excluded address is routed |
| CidrProperties.CompleteIff | src/tun/platform/linux.rs:1264-1274 | for any route: nothing is missing exactly when its left spine is clean |
| CidrProperties.HostBitsLoseRoutes | src/tun/platform/linux.rs:1264-1274 | a route with a host bit that misses an address |
| CidrProperties.SubtractionAscends | src/tun/platform/linux.rs:1243-1274 | the output is canonical and ascending, and no address is in two of its prefixes |
| CidrProperties.SubtractionIsMinimal | src/tun/platform/linux.rs:1256-1263 | no two output prefixes could be one |
| CidrProperties.SubtractionIsSmall | src/tun/platform/linux.rs:1243-1274 | at most one prefix plus one for each bit by which an exclude inside is longer |
| CidrRoutes.SplitSubtractInto | src/tun/platform/linux.rs:1243-1306 | the recursion pushes exactly the specified prefixes |
| CidrRoutes.FinalRoute | src/tun/platform/linux.rs:1308-1336 | every address routed is in a route and in no exclude; without host bits every such address is routed |
| CidrRoutes.FinalRoutesExact | src/tun/platform/linux.rs:1308-1336 | the split set is inside the union of the routes minus the excludes, and without host bits equal to it |
| Uid.MergeRanges | src/tun/platform/linux.rs:88-103 | the same ids in ascending ranges with gaps |
| Uid.SubtractRanges | src/tun/platform/linux.rs:105-124 | base minus sub, without underflow at 0 or overflow at the top |
| Uid.ComplementRanges | src/tun/platform/linux.rs:126-139 | the ids of the interval in no range |
| Uid.MergeUidListAndRanges | src/tun/platform/linux.rs:66-76 | the ids named one by one or by a range |
| Uid.BuildExcludedUidRanges | src/tun/platform/linux.rs:141-157 | bypass means outside include minus exclude, or inside exclude when nothing is included |
| TunWriter.LinuxTunWriter.PollWrite | src/tun/native_tun.rs:528-588 | keeps the stream whole frames and a prefix of the staged one; Ok answers for exactly one frame of its packet; and the answer is the one the device's answers lead to |
| TunWriter.LinuxTunWriter.PassThrough | src/tun/native_tun.rs:536-539 | without headers a write passes what the device takes |
| TunWriter.LinuxTunWriter.FlushStaged | src/tun/native_tun.rs:432-441 | writes on across partial writes; where it stops, what it has written and what it returns are determined by the device's answers |
| TunWriter.FlushedIff | src/tun/native_tun.rs:432-441 | everything gets out exactly when the device takes as much before it first fails or is not ready |
| TunWriter.EachOkIsOneFrame | src/tun/native_tun.rs:528-588 | over any run the packets reported are frames of their own in that order, and every frame is a packet given |
| BatchWrite.BatchWriter.DoBatchWrite | src/tun/native_tun.rs:386-429 | a frame for every packet the device took, in the order given, and as much of the next as it took, which its answers alone determine; it waits while the device is not ready |
| BatchWrite.BatchWriter.Prepare | src/tun/native_tun.rs:391-415 | `handle_gro` on the batch's own buffers leaves every frame and their order alone |
| SharedDevice.BatchWhileStaged | src/tun/native_tun.rs:386-429 | a batch and the flush behind it put the batch between the two parts of a staged frame; the stream is framed exactly when nothing of it was out |
| SharedDevice.WholeIff | src/tun/native_tun.rs:386-429 | no frame is interrupted exactly when the first part was empty or the whole frame, or the batch was |
| TunReader.LinuxTunReader.DoBatchRead | src/tun/native_tun.rs:265-332 | from the octets: without a header the read itself, behind type 0 the packet, behind a GSO type its segments with all its data in order, else an error; returned plus queued is that in order over all reads, and an error loses what was queued |
| TunReader.ExpandMeans | src/tun/native_tun.rs:288-324 | what one read stands for, from its octets |
| ReaderFindings.QueuedSegmentIsLost | src/tun/native_tun.rs:265-332 | a read sequence in which a queued segment is gone after an error |
| TunReader.LinuxTunReader.TakePending | src/tun/native_tun.rs:268-274 | moves queued segments out in order until the batch is full |
| Fragment.FragmentIpv4Packet | src/tun/mod.rs:697-741 | the fragments of the specification, or None |
| Fragment.FragmentFields | src/tun/mod.rs:718-738 | each fragment's data, length, flags and offset |
| Fragment.ChecksumIff | src/tun/mod.rs:731-736 | the doubly complemented header checksum verifies exactly when the packet's own header, with the new length and bits, sums to a multiple of 65535 |
| FragmentFindings.PlainFragmentFails | src/tun/mod.rs:731-736 | a packet whose header verifies and whose fragment's header does not |
| FragmentFindings.LateFragmentIsMisplaced | src/tun/mod.rs:722-731 | a packet whose second fragment wraps to offset 0 and is not restored in any order |
| FragmentProperties.FragmentsFit | src/tun/mod.rs:708-738 | fragments fit the MTU, all but the last with a multiple of eight octets |
| FragmentProperties.FragmentsAreFull | src/tun/mod.rs:697-741 | no fragments exactly for a senseless header, no data, or no room for eight octets; else every fragment fits, and none in front of the last could carry eight octets more |
| FragmentProperties.FragmentsTile | src/tun/mod.rs:718-738 | offsets tile the payload |
| FragmentProperties.FragmentsReassemble | src/tun/mod.rs:697-741 | any order of arrival restores offset, flag and data, exactly when the last offset fits |
| FragmentProperties.RefragmentsReassemble | src/tun/mod.rs:697-741 | so do fragments fragmented again at a smaller MTU |
| Reassembly.TilesReassemble | src/tun/mod.rs:697-741 | any tiling reassembles to the whole |

## Left out

- GroRun.GroRoundTrip: buffers have zeroed header octets, as the batch writer prepares them (`src/tun/native_tun.rs:398`; the code relies on it for items it drops from its table), and at most 65535 octets behind the headroom, so that the u16 length fields are exact; IPv4 ID, IPv6 flow label, TCP window, urgent pointer, reserved bits and PSH are not compared, because a merged packet has them once.
- NatSystem.MapsStayInverse: does not include `TcpNat::clear`; runs with it are in `NatClear`, where the maps need not stay inverse, and a clear there is not interrupted by another.
- NatHandler.HandleTcp: stands for the v4 and the v6 handler, whose only differences are offsets, the address filter and the missing IPv6 header checksum; `skip_ipv6_extension_headers`, which finds the IPv6 TCP header, is not modelled.
- Stream.WriterIsWoken: is about buffer space only; for `write_closed` see `StreamFindings.SleepsForGoodIff`.
- StreamFindings.SleepsForGoodIff: until the removal the socket may always still turn inactive; how long that takes is up to smoltcp.
- Stream.DrainBeforeFin: the rings are the atomic queues that `RingSystem` shows them to refine, and one stream is followed; other sockets of the same pass are independent of it.
- CidrProperties.SubtractionIsExact: excludes have length 1 or more, because `prefix_contains_v4` shifts by the full width for length 0.
- TunWriter.LinuxTunWriter.PollWrite: the device never accepts zero octets (the flush loop would not end), and a batch write that comes between is in `SharedDevice`.
- BatchWrite.BatchWriter.DoBatchWrite: packets have at most 65535 octets when headers are written; a device that is never ready again, its answers having run out, ends the call there, as a cancelled future would.
- TunReader.LinuxTunReader.DoBatchRead: a GSO header on which `gso_split` panics, because it indexes outside the packet or outside the segment it builds, is excluded; u16 sums of lengths wrap as in a release build.
- NatEndToEnd.ThereAndBack: the table is not collected in between; `NatSystem.LiveUntilCollected` and `NatCollector.TakenIff` say when it may be.
- Reads into the caller's existing buffers, buffer reuse and allocation are not modelled; a `Vec` is its contents and, for GRO, its capacity.
- smoltcp is a socket with two byte queues and a state that only moves on; tokio's scheduling, timers and wakers are atomic steps, memory is sequentially consistent.
- ICMP error construction and echo, UDP sessions, DNS handling and SYN tracking: left out, they add easy members only.
- Device creation, ioctls, netlink and the platform back ends other than the route and uid sets: foreign calls without meaning here.
- String parsing of addresses, prefixes and uid ranges, and `config.rs`: the model starts from parsed values.

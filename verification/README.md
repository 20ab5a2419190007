# A verified model of the gaming traffic prioritizer

The program is a userspace router: it translates addresses between a LAN and a WAN, hands out DHCP
leases, and shapes low-priority traffic. This project models the six parts where its correctness is hard
to see, and proves what they are relied on for.

* **Network address translation.** `Frames` parses and rewrites a frame, `FlowTable` and `EchoTable` are the
  two session tables, `Nat` puts them together one packet, tick or WAN change at a time, `NatEngine` is the
  program's own form (arrays, cursors, frames rewritten in place). `NatFrames` says on byte offsets which frames
  are translated and where they change, and `NatRuns` what holds over whole runs: round trips, port ownership,
  filtering. `NatFailures` and `PortReuse` show by runs from the start of the engine where it falls short of
  what one may expect. `SeqLock` is the lock-free reader protocol of the tables, one memory access per step.
* **Checksums.** `Checksum` relates the incremental update to recomputation, `RewriteChecksums` and
  `NatChecksums` carry that to every translated frame.
* **The forwarding pipeline.** `SpscRing` is the ring between the receive and the processing thread,
  `WakeUp` the eventfd protocol around it, `StopProtocol` the shutdown by a semaphore eventfd.
* **Shaping.** `TokenBucket`, `PacketQueue` and `Shaper`.
* **DHCP.** `DhcpLeases` is the lease table over runs, `DhcpOptions` the option scan, `DhcpEngine` the
  program's own form and the reply header, `Subnet` the prefix arithmetic.
* **Settings.** `ConfigFile` is the configuration file, `Mailbox` the hand-over of bandwidth caps from the user
  interface through the controller to the token buckets.

Two kinds of module recur. Operations are functions on values, and the objects that update arrays and
fields in place are classes whose methods are proved equal to those functions. Protocols between threads
are state machines: a step is one access to shared memory or one system call, a step that is not enabled
changes nothing, and so a theorem about every sequence of steps is one about every interleaving.

## Results that differ from what one might expect

* The comment at `include/Processor.hpp:14` calls the flow key a 5-tuple; the struct has four fields. The
  model follows the struct: a TCP and a UDP flow with equal addresses and ports share a session
  (`NatRuns.ProtocolsShareSessions`).
* An external TCP/UDP port is reused after 50001 installs whether or not its session is still in use.
  `NatRuns.PortOwnedIff` says exactly when a session still owns its port, and `PortReuse.PortIsLostAfter` is
  a family of runs of two flows, for any hash, in which a session in use loses it.
* A transport checksum field of zero is never updated. For UDP that is right, since zero there means that
  there is no checksum, and a receiver goes on accepting every UDP frame; for TCP zero is an ordinary value.
  `RewriteChecksums.SegmentStaysAccepted`, `RewriteChecksums.SegmentStaysFresh` and
  `RewriteChecksums.EchoStaysFresh` give the exact conditions, `NatChecksums` carries them to the engine, and
  `NatFailures.ZeroSynGoesStale` is a TCP frame that arrives right and leaves wrong.
* The incremental update cannot produce the checksum of an all-zero message. For TCP and UDP that never
  matters, since the protocol number is part of the sum; `NatFailures.ZeroReplyGoesStale` is a request and its
  reply for which it does.
* The sequence lock compares 32 bits of its counter: a reader that sleeps through exactly a multiple of 2^31
  installs into its slot does not notice them (`SeqLock.StaleAcceptedIff`).
* A DHCP configuration that fails still changes the lease time, so a renewal after it can end a lease
  earlier than was acknowledged before (`DhcpLeases.ShortenedRenewalFrees`). What holds in every run is that the
  last acknowledged expiry decides (`DhcpLeases.LosesIff`). An offer repeated to a client with a lease does
  not renew it. With the pool exhausted, a request that names no address is acknowledged address zero
  (`DhcpLeases.WhenServed`).
* The controller can show and apply a pair of caps that nobody submitted, in two ways
  (`Mailbox.EarlyTearIsShown`, `Mailbox.LateTearIsShown`); `Mailbox.TornExactlyWhen` and `Mailbox.CanTearIff` say
  exactly when. The pair is always replaced by the last submitted one (`Mailbox.NoCapIsLost`).

## Modelling decisions

* Interleavings are sequentially consistent; the acquire and release orders of the source are not modelled.
* Time and token amounts are reals. Clock readings, send results and hash values are parameters, so every
  theorem holds for all of them. A send counts at the clock reading of its attempt.
* The session sequence number is kept as an unbounded count next to its 32-bit value, so that a wrap can be
  spoken about. The fields of a session are numbered. An eventfd counter is unbounded.
* The translation theorems are about frames whose IPv4 header length field is at least five words
  (`FullHeader`, `Segment`); the parser accepts smaller values, and `Frames.HeaderWindow` covers those too.
* Memory behind a DHCP message is an arbitrary byte, since the option scan loads it.

## Model

| member | source | states |
|---|---|---|
| Checksum.FoldIsResidue | src/SelfTest.cpp:22-29 | folding a sum until it fits 16 bits gives the residue modulo 65535, with 65535 for positive multiples |
| Checksum.TwoStepIsFold | src/DhcpEngine.cpp:171-178 | two folding steps equal the looping fold for every 32-bit accumulator |
| Checksum.UpdateEqualsRecomputation | src/NatEngine.cpp:8-12 | updating the checksum of a sum for one replaced word gives the checksum of the new sum if and only if the new sum is not zero |
| Checksum.UpdateThenUndo | src/NatEngine.cpp:8-12 | replacing a word and replacing it back restores every checksum but 0xFFFF, which comes back as 0 |
| Checksum.UpdateAddressThenUndo | src/NatEngine.cpp:14-17 | replacing an address and replacing it back restores every checksum but 0xFFFF |
| Checksum.UpdatesCommute | src/NatEngine.cpp:14-17 | the order of two word replacements does not matter, so the byte order in which the halves of an address are taken does not either |
| Checksum.FieldVerifies | src/SelfTest.cpp:22-29 | a receiver that adds the field to the other words folds to 0xFFFF |
| Checksum.UpdateVerifies | src/NatEngine.cpp:8-12 | a field that a receiver accepts, 0xFFFF in place of 0 included, is still accepted after the update as long as the new words are not all zero |
| Checksum.FoldChecksum | src/SelfTest.cpp:22-39 | the from-scratch loop returns the checksum field of the words in range, with an odd last byte taken as a high half |
| Bytes.BigEndian | include/Headers_util.hpp:18-64 | 16- and 32-bit fields are in network byte order |
| Bytes.SumPadsWithZero | src/SelfTest.cpp:31-39 | an odd number of bytes sums as if a zero byte followed |
| Frames.HeaderWindow | include/Headers_util.hpp:113-138 | when the parser finds a transport header, that header, and so every field the engine touches, lies inside the frame |
| Frames.PortRewriteFields | src/NatEngine.cpp:251-258 | a TCP/UDP rewrite sets one address, one port and two checksum fields, and no other byte |
| Frames.EchoRewriteFields | src/NatEngine.cpp:118-123 | an echo rewrite sets one address, the identifier and two checksum fields, and no other byte |
| NatFrames.ParseFinds | include/Headers_util.hpp:113-138 | on byte offsets: which frames the parser takes for IPv4, TCP and UDP, where their transport header is, and where its checksum |
| NatFrames.EchoFinds | src/NatEngine.cpp:63-66 | on byte offsets: which frames are unfragmented echo requests or replies with code 0 |
| NatFrames.OutboundIff | src/NatEngine.cpp:190-249 | a frame is translated outwards if and only if there is a WAN address and it is TCP, UDP or an echo request that the tables give a port or identifier; any other is left as it was |
| NatFrames.InboundIff | src/NatEngine.cpp:262-310 | a frame is translated inwards if and only if it is TCP, UDP or an echo reply to the WAN address and an active session with its remote end has its port or identifier; any other changes nothing |
| NatFrames.OutboundFrame | src/NatEngine.cpp:251-258 | a TCP/UDP frame translated outwards gets the WAN address at byte 26, its port in the first word of the transport header, new checksums at byte 24 and at byte 16 (TCP) or 6 (UDP) of the transport header, and no other change |
| NatFrames.InboundFrame | src/NatEngine.cpp:312-319 | inwards: the session's inside address at byte 30 and its port in the second word |
| NatFrames.OutboundFrameKeeps | src/NatEngine.cpp:252-258 | what `NatChecksums` says of right checksums, at these offsets, outwards |
| NatFrames.InboundFrameKeeps | src/NatEngine.cpp:313-319 | and inwards |
| NatFrames.OutboundEcho | src/NatEngine.cpp:118-123 | an echo request translated outwards changes in its source address, identifier and the two checksums, and in no other byte |
| NatFrames.InboundEcho | src/NatEngine.cpp:164-169 | an echo reply translated inwards gets the asking host's address and identifier |
| RewriteChecksums.PseudoHeaderWords | src/NatEngine.cpp:252-255 | the words a transport checksum covers besides the segment are those of the two addresses, a zero byte, the protocol and the length |
| RewriteChecksums.HeaderStaysFresh | src/NatEngine.cpp:251-258 | a right IPv4 header checksum equals recomputation over the rewritten header |
| RewriteChecksums.SegmentStaysFresh | src/NatEngine.cpp:252-258 | a right TCP/UDP checksum, pseudo-header included, stays right if and only if the field was not zero or the exchanged words agree modulo 65535 |
| RewriteChecksums.EchoStaysFresh | src/NatEngine.cpp:118-123 | a right ICMP checksum stays right if and only if the message does not become all zero and the field was not zero or the identifiers agree modulo 65535 |
| RewriteChecksums.SegmentStillVerifies | src/NatEngine.cpp:252-258 | words plus field fold to 0xFFFF after the rewrite, given they did before, if and only if the field was not zero or the exchanged words agree modulo 65535 |
| RewriteChecksums.SegmentStaysAccepted | src/NatEngine.cpp:252-258 | a receiver goes on accepting every UDP segment, and a TCP segment unless its field was zero and the exchanged words disagree |
| NatChecksums.PortRewriteKeeps | src/NatEngine.cpp:312-319 | a right IPv4 checksum stays right through a rewrite in either direction; a right transport checksum does if and only if its field was not zero or the words exchanged agree modulo 65535; and what a receiver accepts it goes on accepting if and only if one of these holds or it is UDP |
| NatChecksums.EchoRewriteKeeps | src/NatEngine.cpp:164-169 | the same for an echo rewrite, with the exact condition for the ICMP checksum, a zero field included |
| NatChecksums.OutboundKeepsPorts | src/NatEngine.cpp:190-260 | all of that for every TCP/UDP frame translated outwards |
| NatChecksums.InboundKeepsPorts | src/NatEngine.cpp:262-321 | the same inwards |
| NatChecksums.OutboundKeepsEcho | src/NatEngine.cpp:58-125 | every echo request translated outwards, with the exact condition for the ICMP checksum |
| NatChecksums.InboundKeepsEcho | src/NatEngine.cpp:127-174 | every echo reply translated inwards, with the exact condition |
| NatFailures.ZeroReplyGoesStale | src/NatEngine.cpp:127-174 | for any addresses: after the WAN address is set and a host sends an echo request with identifier 0, the engine lets in a reply with right checksums and its ICMP checksum leaves wrong |
| NatFailures.ZeroSynGoesStale | src/NatEngine.cpp:251-258 | the first frame of an engine, a TCP SYN whose right checksum is zero, leaves with a wrong one that a receiver refuses |
| FlowTable.OneTickOlder | src/NatEngine.cpp:221 | a tick ages a session by at most one, through the wrap of the 32-bit tick |
| FlowTable.PortCycles | src/NatEngine.cpp:231-232 | two installs get the same port if and only if their numbers differ by a multiple of 50001 |
| FlowTable.OutboundKeepsInv | src/NatEngine.cpp:218-247 | every reverse-map entry names an active session with that port, and an active session owns its port if and only if fewer than 50001 installs followed its own; kept by every lookup, install and reclaim |
| FlowTable.TouchKeepsInv | src/NatEngine.cpp:243 | the same through a refresh |
| FlowTable.OutboundSparesUsed | src/NatEngine.cpp:218-247 | no outbound packet takes over, or changes more than the time of, a session in use |
| FlowTable.RefusedIff | src/NatEngine.cpp:218-249 | in every reachable table a packet is refused if and only if the 32 slots from its hash on are in use by other flows; otherwise it gets a port from 10000 to 60000 |
| FlowTable.InboundRefreshes | src/NatEngine.cpp:305-306 | an admitted packet makes its session zero ticks old and changes nothing else |
| EchoTable.OutboundKeepsExact | src/NatEngine.cpp:73-114 | slot i is active with external identifier p if and only if the index maps p to i; kept through hits, expiry, reclaim and failed allocation |
| EchoTable.AllocateKeepsExact | src/NatEngine.cpp:41-56 | the allocator keeps that, and returns 0 or an identifier in 10000..60000 that no active session has |
| EchoTable.IdsAreDistinct | src/NatEngine.cpp:80-105 | so no two active sessions share an identifier |
| EchoTable.AllocateFailsIff | src/NatEngine.cpp:41-56 | allocation fails if and only if each of the 512 candidates from the cursor belongs to an active session |
| EchoTable.BusyCandidates | src/NatEngine.cpp:41-56 | rejected candidates name as many different active sessions |
| EchoTable.AllocateSucceeds | src/NatEngine.cpp:41-56 | with fewer than 512 active sessions the allocator returns an identifier |
| EchoTable.RefusedIff | src/NatEngine.cpp:73-116 | in every reachable table a request is refused if and only if the 32 slots from its hash on are in use by others, or it finds a slot and all 512 candidates are taken; otherwise it gets an identifier from 10000 to 60000. Without an identifier the slot it found becomes inactive, and no other session changes |
| EchoTable.InboundRefreshes | src/NatEngine.cpp:171-172 | an admitted reply makes its session zero ticks old and changes nothing else |
| NatEngine.Store16 | src/NatEngine.cpp:251-258 | a 16-bit store in the frame buffer |
| NatEngine.RewritePortInPlace | src/NatEngine.cpp:251-258 | the in-place rewrite of checksums, address and port equals `Frames.RewritePort` |
| NatEngine.RewriteEchoInPlace | src/NatEngine.cpp:118-123 | the in-place echo rewrite equals `Frames.RewriteEcho` |
| NatEngine.NatEngine.constructor | src/NatEngine.cpp:176-181 | empty tables and cleared reverse maps |
| NatEngine.NatEngine.SetWanIp | src/NatEngine.cpp:183-185 | changes the WAN address and nothing else |
| NatEngine.NatEngine.Tick | src/NatEngine.cpp:188 | advances the 32-bit tick, with wrap-around, and nothing else |
| NatEngine.NatEngine.InstallFlow | src/NatEngine.cpp:222-239 | a reused slot gives up its old port only if the map still points at it, and gets the next port |
| NatEngine.NatEngine.ProbeFlows | src/NatEngine.cpp:218-247 | the 32-step probe loop refines the recursive search: an unused or expired slot wins over a later match |
| NatEngine.NatEngine.OutboundPort | src/NatEngine.cpp:213-249 | session lookup or install of an outbound packet |
| NatEngine.NatEngine.AllocExternalIcmpId | src/NatEngine.cpp:41-56 | the 512-step allocation loop refines the recursive one |
| NatEngine.NatEngine.ReplaceEcho | src/NatEngine.cpp:80-105 | reclaim, allocation and install of an echo slot, or a freed slot when no identifier is left |
| NatEngine.NatEngine.ProbeEchoes | src/NatEngine.cpp:73-114 | the probe loop of the echo table |
| NatEngine.NatEngine.OutboundId | src/NatEngine.cpp:68-116 | echo session lookup or install |
| NatEngine.NatEngine.AdmitFlow | src/NatEngine.cpp:285-302 | the session that admits a packet: by port, and only from the remote end it was opened to |
| NatEngine.NatEngine.ProcessOutbound | src/NatEngine.cpp:190-260 | tables, frame and verdict for every frame, with all reasons to refuse |
| NatEngine.NatEngine.ProcessOutboundIcmp | src/NatEngine.cpp:58-125 | the same for echo requests |
| NatEngine.NatEngine.ProcessInbound | src/NatEngine.cpp:262-321 | tables, frame and verdict for every inbound frame |
| NatEngine.NatEngine.ProcessInboundPorts | src/NatEngine.cpp:271-321 | its TCP/UDP part, for frames to the WAN address |
| NatEngine.NatEngine.ProcessInboundIcmp | src/NatEngine.cpp:127-174 | the same for echo replies |
| NatRuns.RunKeepsInv | src/NatEngine.cpp:190-321 | both table invariants hold after every run of packets, ticks and WAN changes |
| NatRuns.RunKeepsFlow | src/NatEngine.cpp:218-247 | a session stays in its slot through any run during which it is never idle for more than 300 ticks |
| NatRuns.ReplyRefreshes | src/NatEngine.cpp:305-306 | every frame let in counts as a use of its session, which is zero ticks old after it |
| NatRuns.PortOwnedIff | src/NatEngine.cpp:238-239 | a session in the table admits its replies if and only if fewer than 50001 installs followed its own |
| NatRuns.FlowRoundTrip | src/NatEngine.cpp:213-320 | after a:sp to b:dp left as wan:e, any later reply b:dp to wan:e is rewritten to a:sp, across any run, while the session is in use, owns its port and the WAN address is the same |
| NatRuns.FreshFlowRoundTrip | src/NatEngine.cpp:213-320 | the same with conditions that can be counted: at most 300 ticks and 50000 further outbound frames since the install |
| NatRuns.EchoRoundTrip | src/NatEngine.cpp:58-174 | the echo reply reaches the asking host with its own identifier, with no limit on installs |
| NatRuns.FreshEchoRoundTrip | src/NatEngine.cpp:58-174 | the same for every reply within 300 ticks of the request |
| NatRuns.ProtocolsShareSessions | src/NatEngine.cpp:213-246 | frames with equal addresses and ports get the same slot and external port whatever their protocols |
| NatRuns.SessionsWereAskedFor | src/NatEngine.cpp:218-247 | in every run from the start, each session was opened by an earlier outbound frame with its key, which was given its port |
| NatRuns.InboundWasAskedFor | src/NatEngine.cpp:285-310 | a TCP/UDP frame is let in only if an earlier outbound frame went from the inside end it is rewritten to, to the end it comes from, and left from the WAN address and the port it is sent to |
| NatRuns.EchoesWereAskedFor | src/NatEngine.cpp:73-114 | each echo session was opened by an earlier request with its key, which was given its identifier |
| NatRuns.InboundEchoWasAskedFor | src/NatEngine.cpp:137-161 | an echo reply is let in only if the host it is rewritten to sent an earlier request to the address it comes from, which was given the identifier it carries |
| PortReuse.PortIsLostAfter | src/NatEngine.cpp:218-247 | two flows, for any hash: the first is in use all the time and keeps its slot, and a reply returns to it if and only if the second was installed fewer than 50001 times |
| SeqLock.RunKeepsInv | src/NatEngine.cpp:222-240 | the lock's invariant under every interleaving of one writer and any number of readers |
| SeqLock.RecheckIsSafe | src/NatEngine.cpp:299-300 | an unchanged even counter vouches for every field read in between |
| SeqLock.AcceptedIsGenuine | src/NatEngine.cpp:289-310 | every accepted read is the complete record of one install, the one that the counter stood for when the attempt began, and matches the packet, unless the counter moved by 2^32 during one attempt |
| SeqLock.AcceptedIsCurrent | src/NatEngine.cpp:299-309 | at the step that accepts it, the record is what the slot holds, the latest of the slot, with no install in progress there |
| SeqLock.AcceptedFlow | src/NatEngine.cpp:292-309 | for TCP/UDP: inside address and port, remote end and external port were written together, and the last three equal the packet's |
| SeqLock.AcceptedEcho | src/NatEngine.cpp:144-161 | for echo replies |
| SeqLock.UndisturbedReadDecides | src/NatEngine.cpp:292-309 | with no install in progress in the slot, one attempt accepts, with that slot, exactly the packets it matches |
| SeqLock.PacketDecides | src/NatEngine.cpp:285-309 | from the arrival of a packet: it is tried in the slot its port names, and accepted with that slot if and only if the slot is active and matches; a port that names no slot rejects it at once |
| SeqLock.DisturbedReadRetries | src/NatEngine.cpp:292-300 | an install in progress, or one between the loads, makes the reader try again, up to eight attempts |
| SeqLock.EightAttempts | src/NatEngine.cpp:292-310 | a packet that meets an install in progress each time is given up at the eighth attempt and not before |
| SeqLock.InstallCompletes | src/NatEngine.cpp:222-239 | an install leaves its record in the slot, the slot active, its counter two higher and the port naming it, and touches no other slot and no reader |
| SeqLock.InstalledIsFound | src/NatEngine.cpp:222-309 | after it a packet for that port is accepted, with that slot, if and only if it agrees with the record |
| SeqLock.GivenUpRejects | src/NatEngine.cpp:80-95 | an install given up for want of an identifier leaves the slot inactive with its counter two higher, and a packet that its identifier leads there is rejected |
| SeqLock.StaleAcceptedIff | src/NatEngine.cpp:292-302 | a reader that has loaded a matching record and then sleeps through n installs into its slot accepts what it loaded if and only if n is a multiple of 2^31 |
| SpscRing.FullIff | include/Headers_util.hpp:77-78 | the full test holds if and only if capacity - 1 items are present |
| SpscRing.EmptyIff | include/Headers_util.hpp:87 | the empty test holds if and only if nothing is present |
| SpscRing.NoTornRead | include/Headers_util.hpp:79-88 | the slot being read is never the slot being written |
| SpscRing.RunKeepsInv | include/Headers_util.hpp:75-91 | the ring's invariant under every interleaving, for every capacity of at least 2 |
| SpscRing.RingIsAQueue | include/Headers_util.hpp:75-91 | in every run the popped items are a prefix of the pushed ones; a push fails only at capacity - 1 items and a pop only on an empty ring, at their own loads |
| SpscRing.PushedAsGiven | include/Headers_util.hpp:75-91 | in every run what went in is what the completed calls of push were given, and what came out is the first of that, one item for every completed call of pop |
| SpscRing.PushAppends | include/Headers_util.hpp:75-82 | push adds its item if there is room, and changes nothing if there is none |
| SpscRing.PopTakesFirst | include/Headers_util.hpp:85-91 | pop takes out the first item, if there is one |
| WakeUp.NoLostWakeUp | src/App.cpp:501-518 | in every run, a thread that saw the ring empty and is on its way to poll while a frame is there has a readable eventfd, or the receive thread is about to write it; every frame is pushed or counted as dropped |
| WakeUp.SleepsOnlyWhenDone | src/App.cpp:525-556 | a processing thread that poll keeps asleep, with no signal outstanding, has dispatched every frame pushed |
| WakeUp.FramesAreKept | src/App.cpp:501-518 | in every run what went into the ring is what arrived, in order and unchanged, without exactly the frames that found the ring full, which are the ones counted as dropped |
| WakeUp.StaysAlive | src/App.cpp:525-556 | the processing thread leaves its loop only after a stop or when poll fails |
| WakeUp.FrameIsServed | src/App.cpp:525-556 | in every run without these, a worker with a frame in its ring can take out the first one within ten steps |
| WakeUp.ComesToRest | src/App.cpp:525-556 | and without new frames it can take out all it has and be asleep in poll, within eleven steps a frame and ten more |
| WakeUp.SignalPerFrame | src/App.cpp:501-518 | in every run the eventfd is written at most once for every frame pushed |
| WakeUp.StopReadsSucceed | src/App.cpp:404-410 | a stop leaves a token for each of the two threads, so the processing thread finds one to read |
| WakeUp.StopEnds | src/App.cpp:525-556 | in every run with a stop the processing thread can leave by its own steps, at most five for each frame in the ring and five more |
| StopProtocol.RunKeepsInv | src/ControlPlane.cpp:19-29 | tokens are conserved: each is in the eventfd or was taken by one thread |
| StopProtocol.ReadNeverBlocks | src/ControlPlane.cpp:217-221 | with a token per thread, a thread at its blocking read finds one, for any number of threads and any order, early leavers included |
| StopProtocol.StepsHelp | src/App.cpp:404-410 | once the tokens are written every step brings a thread closer to its exit |
| StopProtocol.NobodyIsStuck | src/App.cpp:493-497 | a thread still in its loop can always move |
| StopProtocol.StaysUntilStopped | src/App.cpp:480-497 | before the running flag is cleared no thread leaves its loop unless poll fails |
| StopProtocol.StopTerminates | src/ControlPlane.cpp:66-73 | so every run after stop has at most two steps per thread and ends with all threads gone |
| StopProtocol.BothStop | src/ControlPlane.cpp:84-87 | so a worker stops with its two tokens, and the control plane with one for each of its seven threads |
| StopProtocol.TooFewTokensBlock | src/ControlPlane.cpp:84-87 | with fewer tokens than threads some run leaves a thread blocked |
| TokenBucket.RefundRestores | include/Scheduler_util.hpp:62-64 | a refund after a failed send restores the level before the consume exactly |
| TokenBucket.RefillsAddUp | include/Scheduler_util.hpp:42-54 | two refills in a row equal one at the later time, even if the bucket is full in between |
| TokenBucket.Limiter.constructor | include/Scheduler_util.hpp:27 | a full bucket at the given rate |
| TokenBucket.Limiter.SetRate | include/Scheduler_util.hpp:38-40 | fills the pending slot and nothing else |
| TokenBucket.Limiter.DoRefill | include/Scheduler_util.hpp:42-54 | takes the pending rate, then earns up to the capacity |
| TokenBucket.Limiter.TryConsume | include/Scheduler_util.hpp:56-60 | consumes exactly if the refilled tokens cover the packet |
| TokenBucket.Limiter.DoRefund | include/Scheduler_util.hpp:62-64 | refunds up to the capacity |
| PacketQueue.Queue.Push | include/Scheduler_util.hpp:83-91 | appends the packet's bytes, exactly if there is room and it fits a slot |
| PacketQueue.Queue.Front | include/Scheduler_util.hpp:93-97 | the oldest packet, or nothing |
| PacketQueue.Queue.Pop | include/Scheduler_util.hpp:99-101 | removes the oldest packet, if any |
| Shaper.FirstInFirstOut | src/Scheduler_util.cpp:27-66 | in every run, what was queued and accepted is what left, in order and unchanged, followed by what is queued |
| Shaper.EveryPacketCounted | src/Scheduler_util.cpp:27-37 | every packet offered is accepted or counted in exactly one drop counter, and completions count the packets sent |
| Shaper.DropsByReason | src/Scheduler_util.cpp:27-37 | in every run the oversized counter counts the packets over 2048 bytes, and the overflow counter the others that found 8192 packets queued |
| Shaper.RateBound | src/Scheduler_util.cpp:40-66 | in any window of any run, bytes sent stay within one capacity, what each rate earns while in force, and one capacity per rate change |
| Shaper.RateBoundInWindow | include/Scheduler_util.hpp:30-64 | without a rate change, at most capacity + rate * (t1 - t0) bytes leave in [t0, t1] |
| Shaper.RateBoundFromStart | include/Scheduler_util.hpp:27-64 | both bounds hold of a window that begins anywhere in any run of a shaper from its construction |
| Shaper.NewRunsAt | include/Scheduler_util.hpp:27 | a new shaper runs at its cap in Mbit/s: 125000 bytes a second each, with a bucket of a tenth of a second and at least 15000 bytes, which is full |
| Shaper.RequestTaken | include/Scheduler_util.hpp:30-46 | a requested cap is in force after the next attempt with a packet in the queue, and comes with a full bucket, so that this attempt reaches the link |
| Shaper.CapHolds | include/Scheduler_util.hpp:27-64 | while a cap of c Mbit/s is in force, at most one bucket and c * 1000000 * (t1 - t0) bits leave in [t0, t1] |
| Shaper.CapHoldsFromStart | src/Scheduler_util.cpp:40-66 | this holds in every window of every run from construction, for the cap the shaper was built with |
| Shaper.CapHoldsAfterChange | src/Scheduler_util.cpp:19-21 | and in every window after a change, for the new cap, once an attempt has taken it |
| Shaper.CapIsGranted | src/Scheduler_util.cpp:40-66 | with a cap of c Mbit/s in force, a packet of n bytes at the head goes at the first attempt 8 n / (c * 1000000) seconds later |
| Shaper.AttemptCosts | include/Scheduler_util.hpp:126-139 | a send costs its bytes and the packet, a fatal failure the packet but no tokens, a busy link nothing |
| Shaper.HeadGoesIff | include/Scheduler_util.hpp:42-60 | the head packet goes if and only if the tokens in hand and those earned since the last refill cover it |
| Shaper.WaitingEarns | src/Scheduler_util.cpp:40-66 | while the head waits for tokens, however often the loop tries, the head stays and none of what is earned is lost |
| Shaper.HeadGoesEventually | src/Scheduler_util.cpp:40-66 | in every run, with a positive rate that does not change, a packet at the head for as long as its bytes take at that rate goes at the next attempt, whatever was tried or enqueued in the meantime |
| Shaper.Shaper.SetRateLimit | src/Scheduler_util.cpp:19-21 | requests a rate |
| Shaper.Shaper.EnqueueNormal | src/Scheduler_util.cpp:27-37 | accepts, or counts the drop by its reason |
| Shaper.Shaper.OnResult | include/Scheduler_util.hpp:126-139 | what each send result does to queue, tokens and counter |
| Shaper.Shaper.DrainOnce | src/Scheduler_util.cpp:42-64 | one round of the drain loop, and whether there is another |
| Shaper.Shaper.ProcessQueue | src/Scheduler_util.cpp:40-66 | the loop is a run of rounds, ends within two events per queued packet, and ends with an empty queue, a busy link, or too few tokens for the head |
| DhcpLeases.PoolWithinRange | src/DhcpEngine.cpp:37-54 | configuration succeeds if and only if start <= end, and gives distinct consecutive addresses within the range, all free, as many as fit up to 253 |
| DhcpLeases.RunKeepsInv | src/DhcpEngine.cpp:56-83 | in every run active slots have distinct hardware addresses and all slots distinct addresses |
| DhcpLeases.AckHolds | src/DhcpEngine.cpp:199-204 | an acknowledged address is that client's, with an expiry a whole lease time away |
| DhcpLeases.OfferHolds | src/DhcpEngine.cpp:192-196 | an offered address is that client's; a new lease runs for a whole lease time, a repeated offer changes nothing |
| DhcpLeases.CommitRenews | src/DhcpEngine.cpp:74-83 | in every reachable table a commit makes the one slot with the address active for a lease time, and changes no other |
| DhcpLeases.AssignedIff | src/DhcpEngine.cpp:56-72 | a leased address is assigned to another client if and only if the lease has expired, that client has none, and every earlier slot is in use |
| DhcpLeases.StepTracksExpiry | src/DhcpEngine.cpp:74-83 | but for a successful configuration and such an assignment, the owner keeps the address and only its own acknowledged renewal moves the expiry |
| DhcpLeases.OwnerKeepsAddress | src/DhcpEngine.cpp:56-83 | in every run without a successful configuration, until the address is assigned to another client, the owner keeps it, and it is vacant at a time if and only if that is past the last acknowledged expiry |
| DhcpLeases.LosesIff | src/DhcpEngine.cpp:56-72 | exactly which event is the first to take the address from its owner |
| DhcpLeases.OwnedIsExclusive | src/DhcpEngine.cpp:56-83 | every run without a successful configuration that ends by offering or acknowledging a leased address to another client first saw its last acknowledged expiry pass |
| DhcpLeases.AckIsExclusive | src/DhcpEngine.cpp:192-209 | so it is after every ACK of a non-zero address, with the expiry a lease time away |
| DhcpLeases.OfferIsExclusive | src/DhcpEngine.cpp:192-209 | and after every offer, with the expiry the table records |
| DhcpLeases.ExclusiveForLeaseTime | src/DhcpEngine.cpp:192-209 | while the clock does not go back and no configuration changes pool or lease time, the address goes to no one else before the acknowledged expiry |
| DhcpLeases.ShortenedRenewalFrees | src/DhcpEngine.cpp:224-228 | the lease time matters: from any table, a run in which an acknowledged address goes to another client before the expiry acknowledged first, because a failed configuration shortened the renewal |
| DhcpLeases.WhenServed | src/DhcpEngine.cpp:192-209 | a client gets an offer if and only if it has a lease or a slot is vacant, and an ACK of address zero if and only if neither holds and it names no address |
| DhcpLeases.AnswerToRequest | src/DhcpEngine.cpp:199-208 | in every reachable table a request for an address is acknowledged if the address is the client's after it, and refused with the address it named if not |
| DhcpOptions.ScanInvertsEncode | src/DhcpEngine.cpp:100-113 | for any options, ended by an end option, the message or a cut, the scan returns the last well-formed message type and requested address |
| DhcpOptions.EveryMessageParses | src/DhcpEngine.cpp:100-113 | every byte string is such a message |
| DhcpOptions.ScanIgnoresPast | src/DhcpEngine.cpp:107 | the result does not depend on the byte loaded past the end |
| DhcpOptions.NextOption | src/DhcpEngine.cpp:104-112 | one round of the scan loop |
| DhcpOptions.ScanOptions | src/DhcpEngine.cpp:100-113 | the loop over the buffer terminates and returns what the recursive scan does, whatever lies past the end |
| DhcpEngine.DhcpEngine.constructor | src/DhcpEngine.cpp:214-222 | an invariant table, with the pool if the range is not empty |
| DhcpEngine.DhcpEngine.InitPoolRange | src/DhcpEngine.cpp:37-54 | the slot loop refines the pool of module DhcpLeases |
| DhcpEngine.DhcpEngine.ReconfigurePool | src/DhcpEngine.cpp:224-228 | sets the lease time, then the pool |
| DhcpEngine.DhcpEngine.FindOrAssignLease | src/DhcpEngine.cpp:56-72 | the two search loops: the client's own slot, else the first vacant one |
| DhcpEngine.DhcpEngine.CommitLease | src/DhcpEngine.cpp:74-83 | renews the first slot with the address |
| DhcpEngine.DhcpEngine.HandleRequest | src/DhcpEngine.cpp:85-209 | table and reply for every frame, whatever lies past its end |
| DhcpEngine.IsRequestIff | src/DhcpEngine.cpp:86-98 | on byte offsets: which frames are requests for the server |
| DhcpEngine.HandlesMessage | src/DhcpEngine.cpp:85-209 | for a request with any options: a DISCOVER is answered by an offer or not at all, a REQUEST by an ACK or a NAK of the address it asks for, in option 50 or else as its own, and any other message changes nothing; the client is bytes 28 to 33 of the message |
| DhcpEngine.EveryFrameHandled | src/DhcpEngine.cpp:85-113 | every request has such options, and every other frame is ignored |
| DhcpEngine.ReplyCheck | src/DhcpEngine.cpp:171-178 | the reply's checksum code computes the checksum of its header |
| DhcpEngine.ReplyHeaderVerifies | src/DhcpEngine.cpp:171-178 | every reply header verifies, for any router address |
| DhcpEngine.ReplyHeaderParses | src/DhcpEngine.cpp:124-133 | the header, read by the parser, is that of an unfragmented UDP packet from the router to everyone, with its own length, no options, type of service and identification zero, and time to live 64 |
| Subnet.InferPrefixCoveringPool | src/Network_util.cpp:289-299 | returns the longest prefix the two addresses share, which decides every subnet test between them |
| Subnet.SubnetOfWholeBytes | src/Network_util.cpp:301-308 | the subnet test compares the first one, two, three or four bytes for prefixes 8 to 32, lets everything pass for 0, and refuses lengths out of range |
| Subnet.PoolInInferredSubnet | src/Network_util.cpp:301-308 | every address between the two lies in that subnet, and no longer prefix contains both |
| Subnet.PoolMatchesSubnet | src/DhcpEngine.cpp:37-54 | every address a configuration installs passes the subnet test with the inferred prefix anchored at start |
| ConfigFile.DigitsValue | src/Config.cpp:23-28 | reading the digits of a number gives the number |
| ConfigFile.FieldLine | src/Config.cpp:30-41 | a line of a known key sets that key to its value, less a trailing carriage return |
| ConfigFile.LoadFields | src/Config.cpp:66-94 | the line loop over written lines sets every one of their keys, and no line disturbs another's |
| ConfigFile.NamesInFile | src/Config.cpp:74-87 | the names that the file uses |
| ConfigFile.LoadsText | src/Config.cpp:74-87 | a line that names a text sets it, less a trailing carriage return, and nothing else |
| ConfigFile.LoadsFlag | src/Config.cpp:74-87 | a line that names a flag sets it for "true" and "1", and clears it for anything else |
| ConfigFile.LoadsNumber | src/Config.cpp:23-28 | a line that names a number sets it to its leading digits, or to 0 if they exceed 32 bits, with the prefix length taken as signed |
| ConfigFile.NoDigits | src/Config.cpp:23-28 | text that does not start with a digit reads as 0 |
| ConfigFile.IgnoredLines | src/Config.cpp:30-41 | empty lines, comments, lines without a key, with 64 or more characters in it or 256 or more in the value, and unknown keys set nothing |
| ConfigFile.OtherLinesSet | src/Config.cpp:30-41 | every other line sets its key, where key and value end at a NUL |
| ConfigFile.OnlyTheBuffer | src/Config.cpp:56-60 | only the first 8191 bytes of the file are read |
| ConfigFile.LoadAfterSave | src/Config.cpp:106-119 | what settings come back as, whatever was set before |
| ConfigFile.RoundTripIff | src/Config.cpp:62-119 | save then load restores all settings if and only if every text is under 256 characters with no newline, NUL or trailing carriage return, the prefix length is not negative, and the lease time fits 32 bits; such text always fits the read buffer |
| ConfigFile.Config.LoadConfig | src/Config.cpp:56-94 | the loop over the buffer refines the recursive reader |
| Mailbox.RunKeepsInv | src/ParameterServices.cpp:152-161 | the last submitted pair is always pending, under way, or in force |
| Mailbox.NoCapIsLost | src/ParameterServices.cpp:152-161 | under every interleaving of interface, controller and refills, once nothing is under way the last submitted pair is shown and both buckets run at it |
| Mailbox.LastCapComesIntoForce | src/ParameterServices.cpp:152-161 | and any interleaving without a new submission gets there after a bounded number of controller accesses and one refill of each bucket |
| Mailbox.TornExactlyWhen | src/ParameterServices.cpp:153-154 | whatever happens between the two loads: which submissions the two values come from, that these differ if and only if the first value was loaded between the interface's stores and the second too early, or a newer second value was stored in between, and exactly when the pair is one that nobody submitted |
| Mailbox.CanTearIff | src/GUI/Dashboard.cpp:381-383 | over runs from the start, a schedule can tear a pair, for some submitted values, if and only if it is one of those two |
| Mailbox.EarlyTearIsShown | src/ParameterServices.cpp:153-156 | a run that shows the first value of a second submission with the second value of the first |
| Mailbox.LateTearIsShown | src/ParameterServices.cpp:153-156 | a run that shows the first value of the first with the second value of the second |
| Mailbox.QosController.Tick1Hz | src/ParameterServices.cpp:145-162 | an undisturbed tick is the controller's accesses of the protocol in order, or only the flag exchange, with either shaper missing or present; and the acceleration mode comes into force exactly if its flag was up |

## Left out

- The user interface, apart from the order of its three stores; raw sockets and transmission, whose results are parameters; ioctl and procfs access; file and thread creation.
- The forwarding-state double buffer, which swaps a pointer; traffic classification, which compares sizes and ports; telemetry counters; start-up, shutdown and callback wiring.
- The FNV hash of flow keys: every theorem holds for any hash.
- Weak memory: the protocols are proved over sequentially consistent steps.
- Floating point: rounding in the token bucket.
- The body of a DHCP reply after its IPv4 header, its UDP header, the request queue and the per-tick budget of the background worker.
- Spin locks and the DHCP mutex: a protected section is one step. An attempt of the shaper is one step although its two sections and the send between them are not under one lock; only one thread drains a shaper, and what other threads do in between, an enqueue or a rate request, touches neither the head nor the tokens.
- Eventual drain of a backlogged shaper: the loop is woken by frames, and the source promises none.
- Mailbox.QosController.Tick1Hz: takes the two shapers to be different objects, as they are; the interleavings of the acceleration flag, a mailbox of one value, are not modelled.
- NatRuns.FlowRoundTrip: one packet at a time; what concurrent readers see of an install in progress is stated by module SeqLock.
- ConfigFile.Config.LoadConfig: the globals are one record that the method replaces; errors of opening and reading the file are not modelled.

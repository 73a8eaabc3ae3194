# yustack: a verified model of its protocol core

yustack is a user-space IPv4 stack. This project models the parts that decide what goes over the wire
and what reaches a socket: the neighbour state machine with ARP, the Internet checksum, the two
zoned routing tables, socket buffers and their queues, and the UDP/IP transmit and receive paths.
`dafny verify dfyconfig.toml` checks all of it.

The model has two layers, and the theorems about the first hold of the second.

- Specifications, over values: `Arrivals` (what a received frame is, by its bytes), `Resolution` (the neighbour table as a step system with a log of what was
  accepted and sent), `Frames` (the bytes on the wire and what a receiver reads out of them), `Fib.Best`
  and `FibFrontend.Lookup` (longest-prefix match), `Checksum.InternetChecksum` (RFC 1071), `Hosts` (whole
  hosts that hear frames and send datagrams).
- The code, updated in place: `Skbuff`, `Fib.FibTable`, `FibFrontend.Tables`, `Link`, `NeighbourTable.ArpTable`,
  `Output`, `Input.Stack`. Each method states its new state as a function of the old one in the terms of
  the specification. `System` carries the theorems over: a stack that has come up is a host that was just
  switched on (`PowerUp`), and every run of the stack is the run of that host (`StackRuns`), so that
  conservation is a statement about what the stack has put on the wire (`WireConserves`).

Addresses and ports are the words the C code holds in memory on a little-endian machine; 16- and 32-bit
widths, wrap-around and byte swapping are written out in `Words` and `Bits`. The wire, the device's
frames and the socket's calls are parameters. Allocation is taken to succeed.

Main results:

- `Resolution.Conservation`, `ResolutionIsSafe`, `SingleSolicitation`, `StatesAdvance`: over every run,
  nothing handed to a neighbour is lost, duplicated, reordered, or sent to any but the latest address learned.
  `System.StackRuns` and `System.WireConserves` state it of the stack and its wire.
- `Resolution.LatestArrived`, `ByHistory`, `ArpByHistory`: the neighbour table, every queue, every data packet sent
  and every ARP frame sent are determined by the events alone.
- `Hosts.HearExactly`: what a host does with a frame of any bytes, by its bytes; `Input.VerdictExactly` and
  `Input.Stack.Serve`: where its buffer ends up.
- `NeighbourTable.ArpTable.FlushQueue` with `SendTo` and `Xmit`: the flush loop terminates, and every packet, parked or
  not, has exactly the room its link header takes and fills its buffer from end to end when it is sent.
- `Hosts.TwoHostResolution`, `Hosts.ColdStartDelivery` and `Hosts.SameLinkDelivery`: an exchange between two hosts, from the first
  datagram to an unknown neighbour to the delivery of all of them, in order, frame by frame, given only how
  the interfaces are configured.
- `Checksum.ExactIffNoOverflow`, `PseudoHeaderExact`, `ByteOrderIndependent`, `GenerateThenVerify`: the
  32-bit two-fold accumulator is the checksum of RFC 1071, with the exact representative modulo 65535.
- `Fib.FibTable.Lookup`, `FibFrontend.TwoTablesActAsOne`, `InterfaceClassification`: the zones and the two
  tables are one longest-prefix match, and every destination's class is known exactly.
- `Input.Stack.Serve`: linear ownership of buffers over any sequence of received frames, port assignments and reads.

Where the code does less than one would expect, the model follows the code and says exactly when:

- RFC 768 asks a sender to replace a computed checksum of zero by all ones. `ipv4/udp.c:38` does not;
  `Frames.ZeroChecksumSent` says when a zero goes out and `Frames.ZeroChecksumExample` gives a datagram.
- An interface whose address is the network or broadcast address of its own prefix does not accept packets
  for itself (`FibFrontend.BroadcastConfiguredAsAddress`); `FibFrontend.InterfaceClassification` is the exact rule.
- A datagram of more than 1472 payload bytes is sent without complaint and is lost at the receiver, whose
  read is limited to a full frame (`Hosts.HearDatagram`).
- A neighbour is asked for once. If the answer is lost, no further output asks again (`Resolution.StuckWithoutAnswer`);
  it becomes reachable if and only if some ARP packet from it arrives (`Resolution.ResolvedIffAnswered`).
- Input is not trimmed to the packet's length: padding that the link appends is delivered with the payload, up to a
  full frame (`Hosts.HearDatagram`).
- `skb_reserve` compares `data`, not `tail`, with the end; `Skbuff.SkBuff.Reserve` says exactly when the
  geometry survives.

## Model

| member | source | states |
|---|---|---|
| `Words.HtonsInvolutive` | include/lib.h:18-19 | swapping twice gives the word back, so `ntohs` undoes `htons` |
| `Words.HtonlInvolutive` | include/lib.h:21-23 | the same for 32 bits |
| `Bits.BitwiseHtonl` | include/lib.h:21-22 | byte swapping commutes with and, or, xor of 32-bit words |
| `Bits.InetMakeMaskIsMask` | include/inetdevice.h:36 | the mask of length z has exactly the first z wire-order bits set, for z from 1 to 32 |
| `Bits.MaskComparesPrefix` | ipv4/fib_hash.c:121-124 | masked words are equal if and only if the addresses agree on their first z bits in wire order |
| `Bits.NetworkAddress` | ipv4/fib_frontend.c:73 | a word is `address & mask` if and only if it is the prefix followed by zeros |
| `Bits.BroadcastAddress` | ipv4/fib_frontend.c:88 | a word is <code>prefix&#124;~mask</code> if and only if it is the prefix followed by ones |
| `Checksum.Checksum` | core/checksum.c:5-19 | the loop computes the one's complement sum of the wrapped 32-bit total, and the RFC 1071 checksum when the total does not overflow |
| `Checksum.CsumTcpudpMagic` | core/checksum.c:21-32 | the complement of a finished checksum continued over the 12-byte pseudo-header |
| `Checksum.Finish` | core/checksum.c:28-31 | two folds and a complement give the complement of the one's complement sum, for every accumulator |
| `Checksum.TwoFolds` | core/checksum.c:15-16 | two folds of any 32-bit value leave the representative modulo 65535 that is zero only for zero, without overflow |
| `Checksum.OnesSumContinues` | core/checksum.c:23-29 | a folded sum can be continued as if it had not been folded |
| `Checksum.OnesSumIsCarrySum` | core/checksum.c:8-16 | folding at the end gives the sum in which every carry is brought round at once, word by word, as section 1 of RFC 1071 defines it |
| `Checksum.ChecksumByCarries` | core/checksum.c:5-19 | the checksum is the complement of that sum |
| `Checksum.ExactIffNoOverflow` | core/checksum.c:5-19 | for every size an int can hold the accumulator gives the RFC 1071 checksum if and only if the plain sum fits 32 bits; up to 131074 bytes it always does |
| `Checksum.PseudoHeaderExact` | ipv4/udp.c:37-39 | `csum_tcpudp_magic` on a segment's checksum equals the checksum of pseudo-header and segment together, for even and odd lengths |
| `Checksum.GenerateThenVerify` | ipv4/ip_output.c:147-148 | storing the checksum into its zeroed aligned field makes the buffer verify |
| `Checksum.ByteOrderIndependent` | core/checksum.c:8-18 | summing little-endian and storing little-endian leaves the two bytes the network-order definition prescribes, odd trailing byte included |
| `Checksum.VerifiesIffAllOnes` | ipv4/ip_input.c:115-118 | the checksum is zero if and only if the network-order one's complement sum is all ones |
| `Ethernet.CompareEtherAddr` | driver/ethernet.c:115-120 | zero if and only if the addresses are equal |
| `Ethernet.BroadcastIsMulticast` | driver/ethernet.c:102-107 | the broadcast address passes the multicast test |
| `Ethernet.MulticastBit` | driver/ethernet.c:105-107 | the test picks exactly the addresses whose first byte is odd |
| `Ethernet.ClassifyExactly` | driver/ethernet.c:129-141 | by the bytes of the destination: for this host, for all, for a group, for another host, each if and only if |
| `Fib.BestIsLongestMatch` | ipv4/fib_hash.c:111-141 | the specification picks the covering route of greatest length, latest insertion on a tie, and fails if and only if none covers |
| `Fib.ScanFindsBest` | ipv4/fib_hash.c:116-137 | the first zone from the longest down with a match holds the best route |
| `Fib.FirstMatchIsLatest` | ipv4/fib_hash.c:121-135 | the first node of a zone with the masked destination is the latest inserted route of that length covering it |
| `Fib.FibTable.constructor` | ipv4/fib_hash.c:143-156 | a new table is valid and holds no route |
| `Fib.FibTable.Insert` | ipv4/fib_hash.c:27-94 | a length above 32 is refused without change; else the route is appended to the history that the zones represent |
| `Fib.FibTable.Lookup` | ipv4/fib_hash.c:96-141 | the nested loops return the longest-prefix match over all insertions, or fail if there is none |
| `FibFrontend.Tables.constructor` | ipv4/fib_frontend.c:11-14 | two separate empty tables |
| `FibFrontend.Tables.FibMagic` | ipv4/fib_frontend.c:27-63 | a new route goes to the main table if unicast, else to the local one, and nothing else changes |
| `FibFrontend.Tables.FibAddIfaddr` | ipv4/fib_frontend.c:65-90 | one interface address adds its local, prefix and (below length 31) two broadcast routes, in that order |
| `FibFrontend.Tables.FibNetdevEvent` | ipv4/fib_frontend.c:92-111 | on `NETDEV_UP` the tables gain the routes of the whole address list; a device without configuration fails |
| `FibFrontend.Tables.FibLookup` | ipv4/fib_frontend.c:113-119 | the local table's best route, else the main table's |
| `FibFrontend.LocalTableHostRoutes` | ipv4/fib_frontend.c:77-89 | every route that interface addresses put into the local table has length 32 |
| `FibFrontend.TwoTablesActAsOne` | ipv4/fib_frontend.c:113-119 | local-then-main lookup is one longest-prefix match over both tables with local winning ties |
| `FibFrontend.LocalTableClassifies` | ipv4/fib_frontend.c:77-89 | what the local table says of a destination, for any address list: the entry added last decides |
| `FibFrontend.MainTableClassifies` | ipv4/fib_frontend.c:80-81 | the main table has a unicast route if and only if some prefix covers the destination |
| `FibFrontend.InterfaceClassification` | ipv4/fib_frontend.c:65-111 | exactly which destinations are local, broadcast, unicast or unroutable after `NETDEV_UP`, for every list of addresses with consistent masks |
| `FibFrontend.UsualClassification` | ipv4/fib_frontend.c:65-111 | where no address is a network or broadcast address: local iff an interface address, broadcast iff a network or broadcast address, unicast iff otherwise covered |
| `FibFrontend.RouteInputAccepts` | ipv4/route.c:42-75 | under that condition `ip_route_input` accepts exactly the interface addresses |
| `FibFrontend.OneInterface` | ipv4/fib_frontend.c:27-90 | with one interface, what is on its link has a route, and every route leaves by it with its address as source |
| `FibFrontend.BroadcastConfiguredAsAddress` | ipv4/fib_frontend.c:77-89 | without it, an interface that has its own broadcast address does not accept packets for itself |
| `FibFrontend.BroadcastConfiguredExample` | ipv4/fib_frontend.c:77-89 | 10.0.0.3/30 is such an interface |
| `Frames.EthRoundTrip` | driver/ethernet.c:13-37 | destination, source, type and body of a written frame are read back |
| `Frames.ArpRoundTrip` | ipv4/arp.c:91-110 | a written ARP body, with any padding, parses to the same packet if and only if the checks of `arp_rcv` and `arp_process` let it pass |
| `Frames.ArpAccepted` | ipv4/arp.c:156-247 | which ARP bodies of any bytes are accepted, if and only if, and how their fields are read |
| `Frames.RefusedAddresses` | include/ipv4.h:31-32 | the byte-swapped tests select 127.0.0.0/8 and 224.0.0.0/4 exactly |
| `Frames.IpHeaderVerifies` | ipv4/ip_output.c:132-148 | the receiver's checksum test accepts every header the sender writes |
| `Frames.IpRoundTrip` | ipv4/ip_input.c:75-131 | a written IP packet passes every check of `ip_rcv` and yields protocol, addresses and body |
| `Frames.IpPadded` | ipv4/ip_input.c:120-127 | bytes appended to an acceptable packet leave it acceptable, with the same fields, and become part of its body |
| `Frames.UdpSegmentVerifies` | ipv4/udp.c:28-39 | pseudo-header and completed segment sum to all ones |
| `Frames.UdpRoundTrip` | ipv4/udp.c:50-119 | the packet of a datagram passes the IP checks and yields the ports, the addresses and exactly the payload |
| `Frames.UdpPacketBytes` | ipv4/ip_output.c:132-146 | every byte of the packet but the checks, by offset: 0x45, no service class, total length, no identification, do-not-fragment, 64 hops, UDP, addresses, ports, segment length, payload |
| `Frames.UdpPacketChecks` | ipv4/udp.c:34-39 | the header, and the segment with its pseudo-header, sum to all ones in network order |
| `Frames.ZeroChecksumSent` | ipv4/udp.c:35-39 | the check field sent is zero if and only if the sum to be complemented is all ones |
| `Frames.ZeroChecksumExample` | ipv4/udp.c:35-39 | a concrete datagram with a zero check field |
| `Resolution.StepKeeps` | core/neighbour.c:85-193 | every event keeps the invariant and adds at most the one submitted packet to its neighbour's account |
| `Resolution.Conservation` | core/neighbour.c:85-193 | in every run, for every neighbour, sent packets followed by parked packets are the submitted packets, in order |
| `Resolution.ResolutionIsSafe` | core/neighbour.c:139-179 | in every run each data frame went to the address in the latest ARP packet accepted from that neighbour before it |
| `Resolution.SingleSolicitation` | core/neighbour.c:139-157 | at most one request is ever sent for a neighbour, packets wait only while it is INCOMPLETE, a reachable one has the latest address |
| `Resolution.StatesAdvance` | core/neighbour.c:85-157 | between any two points of a run no entry disappears and no state moves backwards |
| `Resolution.OnlyIntroduced` | ipv4/arp.c:189-213 | a neighbour is in the table if and only if a route was bound to it or it asked for a local address |
| `Resolution.AcceptedArrived` | ipv4/arp.c:189-213 | whatever address is learned comes from an ARP packet that arrived, filed under its sender |
| `Resolution.LatestArrived` | ipv4/arp.c:206-213 | every ARP packet from a known neighbour is accepted: in every run the latest address accepted, and the address of the entry, is the one in the last packet that arrived from it once it was known; it is REACHABLE if and only if there is one |
| `Resolution.HeardIsLast` | ipv4/arp.c:206-213 | that last packet in declarative terms, over the events only |
| `Resolution.SentWhereHeard` | core/neighbour.c:139-179 | each data frame an event causes goes to the address in the last ARP packet that arrived from the neighbour |
| `Resolution.ByHistory` | core/neighbour.c:85-193 | known if and only if introduced; unheard: all submitted packets parked, none sent, INCOMPLETE or NONE; heard: REACHABLE at the last address heard, all sent, none parked |
| `Resolution.ArpFrameBytes` | ipv4/arp.c:56-117 | the 42 bytes of a request or reply: addresses, type 0x0806, the eight fixed bytes with the operation, sender, target |
| `Resolution.ArpByHistory` | ipv4/arp.c:189-204 | exactly one request for a neighbour, for the first packet submitted, unless it was heard before; exactly one reply for every request for a local address, in order; no other ARP frame |
| `Resolution.StuckWithoutAnswer` | core/neighbour.c:139-157 | while no ARP packet from an INCOMPLETE neighbour arrives it stays so, is not asked for again and is sent nothing |
| `Resolution.ResolvedIffAnswered` | core/neighbour.c:85-157 | a neighbour INCOMPLETE at some point of a run is REACHABLE at its end if and only if an ARP packet from it arrives in between; and then all that was submitted for it has been sent |
| `Resolution.IncompleteWasSolicited` | core/neighbour.c:144-153 | an INCOMPLETE neighbour has a non-empty queue and the request on behalf of its first packet has been sent |
| `Resolution.FlushingDequeue` | core/neighbour.c:93 | in the middle of a flush, taking a packet off gives the next state of the flush |
| `Resolution.FlushingSend` | core/neighbour.c:95 | re-entering the output function sends that packet and does not park it again |
| `Resolution.FlushingEnds` | core/neighbour.c:92-97 | a finished flush is the one-step learning of the specification |
| `NeighbourTable.Neighbour.constructor` | core/neighbour.c:20-36 | a new entry is NONE with a zero address and an empty queue |
| `NeighbourTable.IpRouteInput` | ipv4/route.c:25-83 | a route if and only if the lookup gives type LOCAL, with the fields as filled in |
| `NeighbourTable.SubmitUnreachable` | core/neighbour.c:139-157 | soliciting, marking and parking amount to submitting to an unreachable neighbour |
| `NeighbourTable.ArpTable.constructor` | ipv4/arp.c:277-281 | an empty valid table |
| `NeighbourTable.ArpTable.QueueTail` | core/neighbour.c:151 | the packet is parked last |
| `NeighbourTable.ArpTable.Dequeue` | core/neighbour.c:93 | the first parked packet, routed to this very neighbour, or none |
| `NeighbourTable.ArpTable.Set` | core/neighbour.c:89-90 | state and address of one entry are stored, all else stays |
| `NeighbourTable.ArpTable.Xmit` | core/dev.c:130-137 | what is handed to the device fills its buffer from head to end, and goes on the wire |
| `NeighbourTable.ArpTable.NeighLookup` | core/neighbour.c:69-83 | the only entry for the key and device, or null if there is none; the list holds no entry twice |
| `NeighbourTable.ArpTable.NeighCreate` | core/neighbour.c:38-67 | a fresh entry is prepended; at most one entry per key and device is kept |
| `NeighbourTable.ArpTable.NeighLookupCreat` | core/neighbour.c:102-124 | looks up, creates if asked to, and keeps every earlier entry |
| `NeighbourTable.ArpTable.NeighEventSend` | core/neighbour.c:139-157 | 0 and no change for a reachable neighbour, else 1 and the packet is parked, the first one behind a request |
| `NeighbourTable.ArpTable.NeighResolveOutput` | core/neighbour.c:160-193 | submits the packet to its route's neighbour, or discards it with -1 |
| `NeighbourTable.ArpTable.SendTo` | core/neighbour.c:170-179 | the link header is pushed into the exact room left for it, and the frame sent to the neighbour's address |
| `NeighbourTable.ArpTable.FlushQueue` | core/neighbour.c:92-97 | the loop terminates with an empty queue and every parked packet sent in order to the new address, each from a full buffer |
| `NeighbourTable.ArpTable.NeighUpdate` | core/neighbour.c:85-100 | stores state and address; for REACHABLE learns and flushes, as the specification's `Learn` |
| `NeighbourTable.ArpTable.NeighEventNs` | core/neighbour.c:126-137 | finds or creates the sender's entry and learns its address |
| `NeighbourTable.ArpTable.ArpSolicit` | ipv4/arp.c:14-23 | broadcasts a request for the neighbour from the source address of the waiting packet |
| `NeighbourTable.ArpTable.ArpSend` | ipv4/arp.c:125-140 | one ARP frame with the given fields is sent, broadcast and zero address by default |
| `NeighbourTable.ArpCheck` | ipv4/arp.c:156-187 | the checks and the extracted fields: exactly the specification's `ParseArp` |
| `NeighbourTable.ArpTable.ArpProcess` | ipv4/arp.c:143-218 | malformed, foreign, loopback and multicast packets change nothing; the rest act as the specification's `ArpInput`; either way the buffer is freed once and the result is no drop |
| `NeighbourTable.ArpTable.ArpAct` | ipv4/arp.c:189-213 | a request for a local address creates, learns and answers; any other packet updates a known sender only |
| `NeighbourTable.ArpTable.ArpRcv` | ipv4/arp.c:221-247 | the whole of ARP reception on any bytes; every buffer is freed once and the result is no drop |
| `NeighbourTable.ArpTable.ArpBindNeighbour` | ipv4/arp.c:254-275 | a route without a neighbour gets the one for its gateway and device; one that has it is unchanged |
| `Route.IpRouteOutput` | ipv4/route.c:85-205 | fails if and only if no route covers the destination; else device, type, source (the preferred one unless one was given) and neighbour of the result |
| `Skbuff.SkBuff.constructor` | core/skbuff.c:6-29 | an empty buffer of the given size |
| `Skbuff.SkBuff.Reserve` | core/skbuff.c:39-46 | what moves, and exactly when head <= data <= tail <= end survives |
| `Skbuff.SkBuff.Push` | core/skbuff.c:48-57 | succeeds if and only if there is headroom, and keeps the geometry |
| `Skbuff.SkBuff.Pull` | core/skbuff.c:59-66 | succeeds if and only if there is data, and keeps the geometry |
| `Skbuff.SkBuff.Put` | core/skbuff.c:72-83 | succeeds if and only if there is tailroom, and keeps the geometry |
| `Skbuff.Ledger.KfreeSkb` | core/skbuff.c:35-37 | the buffer is recorded as freed |
| `Skbuff.SkBuffHead.constructor` | core/skbuff.c:85-88 | an empty circular list |
| `Skbuff.SkBuffHead.QueueHead` | core/skbuff.c:90-98 | prepends; the list stays circular with `next` and `prev` inverse and members distinct |
| `Skbuff.SkBuffHead.QueueTail` | core/skbuff.c:100-108 | appends, keeping the same |
| `Skbuff.SkBuffHead.Peek` | core/skbuff.c:110-112 | the first buffer, or the list head itself when empty |
| `Skbuff.SkBuffHead.Dequeue` | core/skbuff.c:114-128 | pops the first buffer fully unlinked, or null when empty |
| `Sockets.Sock.constructor` | core/sock.c:26-37 | both queues of a new socket are empty |
| `Memory.Memcpy` | ipv4/ip_output.c:164-168 | exactly the given span is overwritten |
| `Link.EthHeader` | driver/ethernet.c:13-37 | the link header is pushed in front of what the buffer held; without a destination the result is -1 |
| `Link.ArpWrite` | ipv4/arp.c:91-110 | the stores through the advancing pointer write exactly the ARP body |
| `Link.ArpCreate` | ipv4/arp.c:56-117 | the ARP frame with its defaults, filling its buffer from head to end |
| `Output.PayloadBuffer` | ipv4/ip_output.c:63-103 | exactly the room for link, IP and transport header before the payload, and none after it |
| `Output.IpAppendData` | ipv4/ip_output.c:49-112 | that buffer is appended to the write queue |
| `Output.WriteUdpHeader` | ipv4/udp.c:28-35 | the eight header bytes with a cleared check field |
| `Output.UdpChecksum` | ipv4/udp.c:37-39 | the checksum of pseudo-header and segment |
| `Output.UdpFillHeader` | ipv4/udp.c:28-39 | from the transport header on the buffer holds the completed segment |
| `Output.WriteIpStart` | ipv4/ip_output.c:132-144 | the ten header bytes before the check field |
| `Output.WriteIpHeader` | ipv4/ip_output.c:132-147 | the twenty header bytes with a cleared check field |
| `Output.IpFillCheck` | ipv4/ip_output.c:148 | the header's checksum is stored in place |
| `Output.IpFillHeader` | ipv4/ip_output.c:128-148 | the buffer is moved back to its network header and holds the completed packet |
| `Output.PushPendingFrames` | ipv4/ip_output.c:116-158 | the queued buffer is completed and taken off; what is left is the IP packet with room for exactly the link header |
| `Output.UdpBuild` | ipv4/udp.c:95-118 | the packet of the datagram, and the write queue is empty again |
| `Output.UdpSendmsg` | ipv4/udp.c:50-119 | fails for port 0 or no route without effect; else the datagram is submitted to the destination's neighbour |
| `Input.UdpVerdict` | ipv4/udp.c:249-277 | a segment is always freed or delivered, never left to the caller |
| `Input.Stack.constructor` | ipv4/af_inet.c:163-190 | no sockets, no neighbours, no routes; UDP, IP and ARP are registered, IP found first |
| `Input.Stack.DevAddPack` | core/dev.c:124-127 | the handler goes to the front of the list |
| `Input.Stack.UdpLookup` | ipv4/udp.c:215-227 | the port, if it is below 512 and in use, else none |
| `Input.Stack.Free` | core/skbuff.c:35-37 | the books have the buffer as freed |
| `Input.Stack.QueueRcvSkb` | core/sock.c:39-43 | the books have the buffer last on the port's socket |
| `Input.Stack.UdpRcv` | ipv4/udp.c:236-277 | the buffer is freed, or queued on exactly the port's socket; the result is never a drop |
| `Input.Stack.IpLocalDeliver` | ipv4/ip_input.c:12-34 | the body past the header goes to its transport, if one is registered |
| `Input.IpCheck` | ipv4/ip_input.c:90-125 | the checks in order accept exactly the well-formed headers that verify |
| `Input.Stack.IpRcv` | ipv4/ip_input.c:48-131 | a drop if and only if some check fails or the address is not local, and then the buffer is untouched; else delivery |
| `Input.Stack.ArpTake` | ipv4/arp.c:221-247 | the books have a buffer given to `arp_rcv` as freed, once; the result is no drop |
| `Input.Stack.Dispatch` | core/dev.c:101-115 | what the handler does with the buffer and what it returns; without a handler, a drop |
| `Input.Stack.FindHandler` | core/dev.c:106-115 | the first handler in the list for that type and that device or any, or none if there is none |
| `Input.Stack.NetifReceiveSkb` | core/dev.c:91-122 | one drop test after any handler: the buffer is freed exactly once, or on exactly one receive queue, or was for an unregistered transport; the result, and the neighbour table, which changes by ARP only |
| `Input.Stack.EthTypeTrans` | driver/ethernet.c:122-145 | the class of the frame, its type, and the buffer moved past the link header |
| `Input.Stack.FrameBuffer` | driver/ethernet.c:158-166 | a new buffer holding the frame |
| `Input.Stack.ReadFrame` | driver/ethernet.c:158-170 | the buffer of a frame, classified and positioned behind its link header |
| `Input.Stack.TakeFrame` | driver/ethernet.c:158-176 | what becomes of a frame that can carry a link header |
| `Input.Stack.EtherRx` | driver/ethernet.c:147-177 | what becomes of any frame: its buffer, the sockets' queues and the neighbour table; by its bytes, the buffer is unclaimed if and only if it is a well-formed packet for this host and an unregistered transport, and freed if and only if it is neither that nor a datagram for a port in use |
| `Input.IpVerdictExactly` | ipv4/ip_input.c:48-131 | by the bytes of a frame: a drop if and only if it is not a well-formed packet for this host and device; delivery if and only if it holds a datagram for a port in use, and then what |
| `Input.VerdictExactly` | core/dev.c:91-122 | what becomes of a frame of any bytes: unclaimed, delivered, freed, each if and only if; only ARP frames touch the neighbours |
| `Input.EnteredKeepsLinear` | core/dev.c:91-122 | taking in a new buffer, whatever the verdict, keeps every buffer in exactly one place |
| `Input.EnteredKeepsJustified` | core/dev.c:117-119 | and keeps it in the place its frame's bytes demand |
| `Input.ArrivedKeeps` | core/dev.c:91-122 | both, for any frame |
| `Input.ReceivedKeepsLinear` | core/datagram.c:20-30 | so does handing the first buffer of a queue to a caller |
| `Input.BoundKeepsLinear` | ipv4/udp.c:131-165 | and giving a port to a new socket |
| `Input.Stack.Arrive` | driver/ethernet.c:147-177 | a received frame keeps every buffer in exactly one place and the queued ones legible |
| `Input.Stack.Assign` | ipv4/udp.c:131-165 | the port by an independent definition, and the books and table afterwards |
| `Input.Stack.Bind` | ipv4/udp.c:131-165 | asking for a port keeps the same |
| `Input.Stack.Receive` | ipv4/udp.c:168-203 | reading a datagram keeps the same |
| `Input.Stack.Serve` | core/dev.c:91-122 | after any sequence of frames, port assignments and reads every buffer taken in is in exactly one place, once: unclaimed if and only if its frame was a well-formed packet for this host and an unregistered transport; on a queue or received only if it held a datagram for this host; freed otherwise |
| `Input.Stack.UdpGetPort` | ipv4/udp.c:131-165 | the port asked for or the lowest free one, failure if and only if it is not to be had, no other port changes |
| `Input.UdpRecvmsg` | ipv4/udp.c:168-203 | sender address, sender port and exactly the payload of the first datagram, which leaves the queue |
| `Hosts.HostRunIsRun` | core/neighbour.c:85-193 | any sequence of datagrams sent, frames heard and ports assigned drives the neighbour table through a run of the step system |
| `Hosts.HostConserves` | core/neighbour.c:85-193 | conservation and safety over every run of a host from power-up, whatever frames it hears; it answers ARP and takes UDP, and does not answer ICMP |
| `Hosts.HearArp` | ipv4/arp.c:143-247 | what hearing any ARP frame not addressed to a third host does to a host |
| `Hosts.HearRequest` | ipv4/arp.c:189-213 | what a host does with another's request, exactly, in all three cases |
| `Hosts.Answer` | ipv4/arp.c:193-200 | the answer carries the owner's hardware address for the address asked for and returns to the asker |
| `Hosts.TwoHostResolution` | ipv4/arp.c:143-218 | for any two tables, request and reply leave the asker's entry reachable with the owner's address, its queue empty and every parked packet sent there in order, and the owner's entry for the asker reachable |
| `Hosts.HearExactly` | ipv4/ip_input.c:75-131 | the whole of reception, for a frame of any bytes: a datagram for a port in use is delivered with its sender and all that follows its header, options or not; a well-formed ARP packet acts on the neighbours; any other frame changes nothing |
| `Hosts.ArpExactly` | ipv4/arp.c:143-247 | the ARP part of it: request for a local address, other packet, or refused |
| `Hosts.HearOtherhost` | driver/ethernet.c:138-141 | a frame for another host's device changes nothing, whatever it contains |
| `Hosts.HearIp` | ipv4/ip_input.c:75-131 | an IP frame of any content leaves neighbours and routes as they are |
| `Hosts.HearDatagram` | ipv4/ip_input.c:75-131 | a data frame for an address and port of the host, with any link padding, is delivered with its sender if and only if the payload has at most 1472 bytes, else changes nothing; the payload is intact if and only if there is no padding or no room for it |
| `Hosts.HearTruncatedDatagram` | driver/ethernet.c:150-152 | a packet longer than a full frame is lost without effect |
| `Hosts.SendAllParks` | core/neighbour.c:139-157 | any number of datagrams to an unknown neighbour wait in order behind a single request |
| `Hosts.WireOfFlush` | core/neighbour.c:92-97 | a flush puts exactly the frames of the parked packets on the wire, in order |
| `Hosts.HearBurst` | ipv4/udp.c:236-277 | the frames of any number of datagrams are delivered in order |
| `Hosts.AnswerFrames` | ipv4/arp.c:193-200 | a host that is asked for puts on the wire what it has parked for the asker, in order, then the answer, and nothing else |
| `Hosts.HearParked` | ipv4/ip_input.c:75-131 | hearing such parked packets changes nothing but sockets' queues |
| `Hosts.FlushedFrames` | core/neighbour.c:85-100 | on hearing the answer the asker puts exactly the waiting packets on the wire and holds none back |
| `Hosts.ColdStartDelivery` | ipv4/udp.c:50-119 | sends to an unknown neighbour, then three exchanges of all that is on the wire, the receiver's own parked packets included: all datagrams are on the receiver's socket in order with the right sender, none is left waiting |
| `Hosts.SameLinkDelivery` | ipv4/fib_frontend.c:65-111 | two hosts just configured with one interface address each: if the receiver's address is on the sender's link and not a broadcast one, the same exchange delivers every datagram |
| `Hosts.DeliveryExample` | ipv4/fib_frontend.c:65-111 | two concrete hosts, 10.0.0.2 and 10.0.0.1 on a /8 link, meet those conditions, so any datagrams between them arrive |
| `System.PowerUp` | driver/ethernet.c:63-96 | a stack that was initialised and brought up is a host with the routes of its interface addresses, no neighbours and no sockets |
| `System.StackHears` | driver/ethernet.c:147-177 | the stack as the code keeps it, receiving a frame, performs the host's step `Hear` |
| `System.StackSends` | ipv4/udp.c:50-119 | sending a datagram, the host's step `Send` |
| `System.StackBinds` | ipv4/udp.c:131-165 | giving a port to a new socket, the host's step `BindSocket` |
| `System.StackRuns` | core/neighbour.c:85-193 | a run of the stack over any stimuli is the run of the host, and its wire is that of the host's log |
| `System.WireConserves` | core/neighbour.c:85-193 | from power-up: the stack's wire is that of a log in which, for every neighbour, sent then parked packets are the submitted ones in order, each sent to the latest address accepted |

## Left out

- ICMP (ipv4/icmp.c): echo replies and their checksum; a datagram of protocol 1 counts as one for an unregistered transport, so an echo request has no effect on the model's hosts.
- Descriptors, bind and autobind (core/socket.c, ipv4/af_inet.c): thin dispatch; `sport` is taken as it stands in the socket, and `System` supposes that no socket holds two ports.
- The tap device, threads and the busy-wait of `skb_recv_datagram`: the wire is a sequence of frames, and receiving is modelled on a non-empty queue.
- Failed and leaked allocations, and `printf`: not part of the protocol.
- Several devices: `dev_get_by_index` does not advance (core/dev.c:39-43), so a route carries the device its index denotes, and a host of `Hosts` has one device.
- IP options, fragments, forwarding and gateways: not implemented by the stack; header options are skipped on input as the code does.
- Route scopes: stored by the code and never read.
- The `qlen` field of a queue is never updated by the code and is not modelled; the UDP checksum is not verified on reception by the code, so reception promises nothing about it.
- Hosts.HostConserves: does not cover the packets an ICMP echo would make the host submit.
- Input.Stack.IpLocalDeliver: takes every registered transport to be `udp_rcv`, as UDP is the only one modelled.
- Input.Stack.constructor: does not register ICMP.
- Input.UdpRecvmsg: requires a buffer that holds the payload, because `skb_copy_datagram_iovec` ignores the size it is given (core/datagram.c:8-16).
- Output.UdpSendmsg: requires a payload whose total length fits the 16-bit length fields, which would otherwise be truncated; a call without an address, which reads uninitialised words, and the family and length tests of the address are not modelled.
- Fib.FibTable.Insert: requires a nonzero prefix length, because the mask of length 0 shifts a 32-bit int by 32, which C leaves undefined.
- FibFrontend.Tables.FibMagic: requires a nonzero length, for the same reason.
- FibFrontend.Tables.FibAddIfaddr: requires a nonzero prefix length, for the same reason.
- FibFrontend.Tables.FibNetdevEvent: requires nonzero prefix lengths, for the same reason.
- NeighbourTable.ArpTable.NeighCreate: requires a key that is not in the table, which both its callers have looked up; the code does not check, and would add a second entry.
- Link.EthHeader: requires room for the header, because the code writes through the result of `skb_push` unchecked; every caller is proved to leave that room.
- Route.IpRouteOutput: starts a new route without a neighbour, where the code leaves the field of the allocated block unset (ipv4/route.c:102), and does not model a device without Internet configuration, for which the code goes on with a null route (ipv4/route.c:96-100).
- NeighbourTable.Neighbour: its `arp_queue`, and the receive queue of Sockets.Sock, are sequences updated in place rather than linked lists; Skbuff proves that the linked list acts as such a sequence, and the write queue uses it. A parked buffer is kept as its memory image with the offsets of `data` and `tail`, and output works on a buffer with that image, so aliasing between parked buffers is not captured; nor are the frees of the transmit side.
- Hosts.ColdStartDelivery: supposes that neither address is in 127.0.0.0/8 or 224.0.0.0/4, which ARP refuses, and that the receiver's hardware address is not a multicast one, which IP input refuses.

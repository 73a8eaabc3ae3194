/** The receive paths (core/dev.c, ipv4/ip_input.c, ipv4/udp.c): what becomes of a received buffer, and who
    owns it afterwards. */
module Input {
  import opened Words
  import opened Wrappers
  import opened Ethernet
  import opened Checksum
  import opened Frames
  import opened FibFrontend
  import opened Resolution
  import opened NeighbourTable
  import opened Skbuff
  import opened Sockets
  import opened Memory
  import opened Arrivals

  const MAXUDPSOCKNUM: nat := 512

  // ---------- the specification ----------

  /** What a receive function did with a buffer: left it to its caller, freed it, lost it, or put the
      datagram in it on the queue of the socket bound to a port. */
  datatype Verdict = Dropped | Freed | Unclaimed | Delivered(port: nat, datagram: Datagram)

  /** `udp_rcv` on a segment: it always takes the buffer. */
  ghost function UdpVerdict(saddr: uint32, segment: Bytes, ports: set<nat>): (v: Verdict)
    ensures v.Freed? || v.Delivered?
  {
    if |segment| < UDP_HLEN then Freed
    else
      var port := Htons(U16At(segment, 2));
      if port < MAXUDPSOCKNUM && port in ports
      then Delivered(port, Datagram(saddr, U16At(segment, 0), segment[UDP_HLEN..]))
      else Freed
  }

  /** `ip_rcv` on a packet: `local` holds the addresses of this host, `protos` the registered transports. */
  ghost function IpVerdict(p: Bytes, pktType: PktType, local: iset<uint32>, protos: seq<byte>, ports: set<nat>): Verdict {
    if pktType != PacketHost || !IpAcceptable(p) || IpDaddr(p) !in local then Dropped
    else if IpProto(p) !in protos then Unclaimed
    else UdpVerdict(IpSaddr(p), IpBody(p), ports)
  }

  datatype Handler = ArpHandler | IpHandler

  /** `struct packet_type` */
  datatype PacketType = PacketType(proto: uint16, dev: Option<Device>, handler: Handler)

  predicate Takes(pt: PacketType, proto: uint16, dev: Device) {
    pt.proto == proto && (pt.dev.None? || pt.dev.value == dev)
  }

  /** The first registered handler for a protocol on a device */
  ghost function HandlerFor(ptypes: seq<PacketType>, proto: uint16, dev: Device): Option<Handler> {
    if ptypes == [] then None
    else if Takes(ptypes[0], proto, dev) then Some(ptypes[0].handler)
    else HandlerFor(ptypes[1..], proto, dev)
  }

  /** A buffer that `udp_recvmsg` can read, as it stands on a receive queue */
  ghost predicate Legible(skb: SkBuff)
    reads skb`data, skb`tail, skb`len, skb`nh, skb`h
  {
    && 0 <= skb.data <= skb.tail <= skb.buf.Length && skb.len == skb.tail - skb.data >= UDP_HLEN
    && 0 <= skb.nh && skb.nh + IP_HLEN <= skb.buf.Length && skb.h == skb.data
  }

  ghost predicate Holds(skb: SkBuff, d: Datagram)
    reads skb`data, skb`tail, skb`len, skb`nh, skb`h, skb.buf
  {
    && Legible(skb)
    && var segment := skb.buf[..][skb.data..skb.tail];
       d == Datagram(U32At(skb.buf[..], skb.nh + 12), U16At(segment, 0), segment[UDP_HLEN..])
  }

  /** What an arriving ARP body does to the neighbour table */
  ghost function AfterArp(s: State, dev: Device, body: Bytes, pktType: PktType, local: iset<uint32>): State {
    match ParseArp(body, pktType)
    case None => s
    case Some(p) => ArpInput(s, dev, p, p.tip in local)
  }

  /** The datagram in such a frame: its sender, and everything after its header */
  ghost function DatagramIn(f: Bytes): Datagram
    requires |f| >= 34 && |f| >= SegmentAt(f) + 8
  {
    Datagram(U32At(f, 26), U16At(f, SegmentAt(f)), f[SegmentAt(f) + 8..])
  }

  /** What a handler does with a buffer positioned behind its link header; without one it is dropped. */
  ghost function HandlerVerdict(handler: Option<Handler>, body: Bytes, pktType: PktType, local: iset<uint32>,
                                protos: seq<byte>, ports: set<nat>): Verdict
  {
    match handler
    case None => Dropped
    case Some(ArpHandler) => Freed
    case Some(IpHandler) => IpVerdict(body, pktType, local, protos, ports)
  }

  /** What becomes of it: what was dropped is freed (`netif_receive_skb`). */
  ghost function BufferVerdict(handler: Option<Handler>, body: Bytes, pktType: PktType, local: iset<uint32>,
                               protos: seq<byte>, ports: set<nat>): (v: Verdict)
    ensures !v.Dropped?
  {
    var v := HandlerVerdict(handler, body, pktType, local, protos, ports);
    if v.Dropped? then Freed else v
  }

  /** What it does to the neighbour table */
  ghost function BufferEffect(handler: Option<Handler>, s: State, dev: Device, body: Bytes, pktType: PktType,
                              local: iset<uint32>): State
  {
    if handler == Some(ArpHandler) then AfterArp(s, dev, body, pktType, local) else s
  }

  /** What becomes of a frame that was read, and what it does to the neighbour table */
  ghost function SeenVerdict(ptypes: seq<PacketType>, f: Bytes, dev: Device, local: iset<uint32>,
                             protos: seq<byte>, ports: set<nat>): (v: Verdict)
    requires |f| >= ETH_HLEN
    ensures !v.Dropped?
  {
    BufferVerdict(HandlerFor(ptypes, U16At(f, 12), dev), EthBody(f), Classify(EthDest(f), dev), local, protos, ports)
  }

  ghost function SeenEffect(ptypes: seq<PacketType>, s: State, f: Bytes, dev: Device, local: iset<uint32>): State
    requires |f| >= ETH_HLEN
  {
    BufferEffect(HandlerFor(ptypes, U16At(f, 12), dev), s, dev, EthBody(f), Classify(EthDest(f), dev), local)
  }

  /** What becomes of a frame on the wire, and what it does to the neighbour table (`ether_rx`) */
  ghost function FrameVerdict(ptypes: seq<PacketType>, frame: Bytes, dev: Device, local: iset<uint32>,
                              protos: seq<byte>, ports: set<nat>): (v: Verdict)
    requires |frame| >= ETH_HLEN
    ensures !v.Dropped?
  {
    SeenVerdict(ptypes, Read(frame), dev, local, protos, ports)
  }

  ghost function FrameEffect(ptypes: seq<PacketType>, s: State, frame: Bytes, dev: Device, local: iset<uint32>): State
    requires |frame| >= ETH_HLEN
  {
    SeenEffect(ptypes, s, Read(frame), dev, local)
  }

  /** The handlers that `inet_init` registers */
  const PTYPES: seq<PacketType> :=
    [PacketType(Htons(ETH_P_IP), None, IpHandler), PacketType(Htons(ETH_P_ARP), None, ArpHandler)]

  lemma HandlerOfFrame(f: Bytes, dev: Device)
    requires |f| >= ETH_HLEN
    ensures HandlerFor(PTYPES, U16At(f, 12), dev) ==
            if EthProto(f) == ETH_P_IP then Some(IpHandler) else if EthProto(f) == ETH_P_ARP then Some(ArpHandler) else None
  {
    hide Htons;
    hide U16At;
    HtonsIff(U16At(f, 12), ETH_P_IP);
    HtonsIff(U16At(f, 12), ETH_P_ARP);
    var arp := PacketType(Htons(ETH_P_ARP), None, ArpHandler);
    assert PTYPES[1..] == [arp] && [arp][1..] == [];
    assert HandlerFor([arp], U16At(f, 12), dev) == if Takes(arp, U16At(f, 12), dev) then Some(ArpHandler) else None;
  }

  // ---------- the verdicts, by the bytes of a frame ----------

  lemma WellFormedIff(p: Bytes)
    ensures WellFormedIp(p) <==> IpAcceptable(p)
  {
    hide OnesSum;
    hide NetworkSum;
    hide InternetChecksum;
    if |p| >= 20 && HeaderLen(p) <= |p| {
      VerifiesIffAllOnes(p[..HeaderLen(p)]);
    }
  }

  /** What `ip_rcv` makes of a frame: a drop exactly if it is not a well-formed packet for this host. */
  lemma IpVerdictExactly(f: Bytes, dev: Device, local: iset<uint32>, protos: seq<byte>, ports: set<nat>)
    requires |f| >= 14 && f[12] == 0x08 && f[13] == 0x00
    ensures var v := IpVerdict(EthBody(f), Classify(EthDest(f), dev), local, protos, ports);
            && (v.Dropped? <==> !IpForHost(f, dev, local))
            && (v.Unclaimed? <==> Unregistered(f, dev, local, protos))
            && (v.Delivered? <==> ForPort(f, dev, local, protos, ports))
            && (v.Delivered? ==> v == Delivered(PortIn(f), DatagramIn(f)))
  {
    hide Classify;
    hide WellFormedIp;
    hide IpAcceptable;
    hide Htons;
    hide Word16;
    hide Halves;
    var p := EthBody(f);
    ClassifyExactly(EthDest(f), dev);
    WellFormedIff(p);
    if IpAcceptable(p) {
      WellFormedLengths(p);
      var n := HeaderLen(p);
      assert IpBody(p) == f[14 + n..];
      if |f| >= 14 + n + 8 {
        HtonsBytes(f[14 + n + 2], f[14 + n + 3]);
      }
    }
  }

  lemma WellFormedLengths(p: Bytes)
    requires IpAcceptable(p)
    ensures |p| >= 20 && HeaderLen(p) <= |p|
  {
  }

  /** What becomes of any frame: it is lost exactly if it is a well-formed packet for this host and for a transport that
      nobody registered; delivered exactly if it holds a datagram for a port in use, and then with its sender and all that
      follows its header; and freed otherwise. Only an ARP frame can change the neighbour table. */
  lemma VerdictExactly(s: State, frame: Bytes, dev: Device, local: iset<uint32>, protos: seq<byte>, ports: set<nat>)
    requires |frame| >= 14
    ensures var v, f := FrameVerdict(PTYPES, frame, dev, local, protos, ports), Read(frame);
            && (v.Unclaimed? <==> Unregistered(f, dev, local, protos))
            && (v.Delivered? <==> ForPort(f, dev, local, protos, ports))
            && (v.Delivered? ==> v == Delivered(PortIn(f), DatagramIn(f)))
            && (v.Freed? <==> !Unregistered(f, dev, local, protos) && !ForPort(f, dev, local, protos, ports))
            && (FrameEffect(PTYPES, s, frame, dev, local) == if f[12] == 0x08 && f[13] == 0x06
                then AfterArp(s, dev, f[14..], Classify(f[..6], dev), local) else s)
  {
    hide IpVerdict;
    hide Classify;
    hide AfterArp;
    hide HandlerFor;
    hide U16At;
    hide WellFormedIp;
    var f := Read(frame);
    HandlerOfFrame(f, dev);
    TypeOfFrame(f);
    if f[12] == 0x08 && f[13] == 0x00 {
      IpVerdictExactly(f, dev, local, protos, ports);
    }
  }

  lemma TypeOfFrame(f: Bytes)
    requires |f| >= 14
    ensures EthProto(f) == ETH_P_IP <==> f[12] == 0x08 && f[13] == 0x00
    ensures EthProto(f) == ETH_P_ARP <==> f[12] == 0x08 && f[13] == 0x06
  {
    hide Htons;
    hide Word16;
    HtonsBytes(f[12], f[13]);
    Word16Same(f[13], f[12], 0x00, 0x08);
    Word16Same(f[13], f[12], 0x06, 0x08);
    EtherTypes();
  }

  lemma EtherTypes()
    ensures Word16(0x00, 0x08) == ETH_P_IP && Word16(0x06, 0x08) == ETH_P_ARP
  {
  }

  /** The checks of `ip_rcv` on the header of a packet, in its order */
  method IpCheck(iph: Bytes) returns (ok: bool)
    ensures ok <==> IpAcceptable(iph)
  {
    hide OnesSum;
    if |iph| < IP_HLEN {
      return false;
    }
    var ihl, version := iph[0] % 0x10, iph[0] / 0x10;
    if ihl < 5 || version != 4 {
      return false;
    }
    if |iph| < ihl * 4 {
      return false;
    }
    var sum := Checksum.Checksum(iph[..ihl * 4]);
    SumBound(iph[..ihl * 4]);
    if sum != 0 {
      return false;
    }
    var len := Htons(U16At(iph, 2));
    BytesOfWord16(iph[2], iph[3]);
    return !(|iph| < len || len < ihl * 4);
  }

  // ---------- who owns the buffers ----------

  /** Where the received buffers are: what the ledger records, and the queue of every bound socket */
  datatype Books = Books(origin: map<SkBuff, Bytes>, freed: seq<SkBuff>, unclaimed: seq<SkBuff>, received: seq<SkBuff>,
                         queues: map<Sock, seq<SkBuff>>)

  /** The books after a buffer was dealt with: it was freed, or appended to one queue, or got lost, or (dropped) nothing
      was done with it; no other buffer was touched. */
  ghost function Entered(b: Books, table: seq<Option<Sock>>, v: Verdict, skb: SkBuff): (c: Books)
    ensures c.origin == b.origin
  {
    match v
    case Dropped => b
    case Freed => b.(freed := b.freed + [skb])
    case Unclaimed => b.(unclaimed := b.unclaimed + [skb])
    case Delivered(port, _) =>
      if port < |table| && table[port].Some? && table[port].value in b.queues
      then b.(queues := b.queues[table[port].value := b.queues[table[port].value] + [skb]])
      else b
  }

  ghost function TakenIn(b: Books, skb: SkBuff, f: Bytes): Books {
    b.(origin := b.origin[skb := f])
  }

  /** The buffers that are on no queue any more */
  ghost function Settled(b: Books): seq<SkBuff> {
    b.freed + b.unclaimed + b.received
  }

  ghost predicate OnQueue(b: Books, skb: SkBuff) {
    exists sk :: sk in b.queues && skb in b.queues[sk]
  }

  /** Every buffer ever taken in is in exactly one place, and there only once: freed, unclaimed, received by a caller, or
      on the queue of one socket. */
  ghost predicate Linear(b: Books) {
    && Distinct(Settled(b))
    && (forall sk :: sk in b.queues ==> Distinct(b.queues[sk]))
    && (forall sk, skb :: sk in b.queues && skb in b.queues[sk] ==> skb in b.origin && skb !in Settled(b))
    && (forall sk, sk', skb :: sk in b.queues && sk' in b.queues && skb in b.queues[sk] && skb in b.queues[sk'] ==> sk == sk')
    && (forall skb :: skb in b.origin ==> skb in Settled(b) || OnQueue(b, skb))
    && (forall skb :: skb in Settled(b) ==> skb in b.origin)
  }

  ghost predicate Distinct(s: seq<SkBuff>) {
    forall i, j :: 0 <= i < j < |s| ==> s[i] != s[j]
  }

  /** Taking in a new buffer keeps ownership linear, as long as something becomes of it. */
  lemma EnteredKeepsLinear(b: Books, table: seq<Option<Sock>>, v: Verdict, skb: SkBuff, f: Bytes)
    requires Linear(b) && skb !in b.origin && !v.Dropped?
    requires v.Delivered? ==> v.port < |table| && table[v.port].Some? && table[v.port].value in b.queues
    ensures Linear(Entered(TakenIn(b, skb, f), table, v, skb))
  {
    var c := Entered(TakenIn(b, skb, f), table, v, skb);
    assert forall x :: x in Settled(c) <==> x in Settled(b) || (!v.Delivered? && x == skb);
    forall x | x in c.origin ensures x in Settled(c) || OnQueue(c, x) {
      if x == skb {
        if v.Delivered? {
          assert skb in c.queues[table[v.port].value];
        }
      } else if x !in Settled(b) {
        var sk :| sk in b.queues && x in b.queues[sk];
        assert x in c.queues[sk];
      }
    }
    if !v.Delivered? {
      DistinctInsert(b.freed, b.unclaimed, b.received, skb);
    }
  }

  lemma DistinctInsert(x: seq<SkBuff>, y: seq<SkBuff>, z: seq<SkBuff>, skb: SkBuff)
    requires Distinct(x + y + z) && skb !in x + y + z
    ensures Distinct(x + [skb] + y + z) && Distinct(x + (y + [skb]) + z)
  {
    InsertAt(x, y + z, skb);
    InsertAt(x + y, z, skb);
    assert x + (y + z) == x + y + z;
    assert x + [skb] + (y + z) == x + [skb] + y + z;
    assert x + y + [skb] + z == x + (y + [skb]) + z;
  }

  lemma InsertAt(x: seq<SkBuff>, y: seq<SkBuff>, skb: SkBuff)
    requires Distinct(x + y) && skb !in x + y
    ensures Distinct(x + [skb] + y)
  {
    var s, t := x + y, x + [skb] + y;
    forall i, j | 0 <= i < j < |t| ensures t[i] != t[j] {
      assert i < |x| ==> t[i] == s[i];
      assert i > |x| ==> t[i] == s[i - 1];
      assert j < |x| ==> t[j] == s[j];
      assert j > |x| ==> t[j] == s[j - 1];
    }
  }

  /** The books after the first buffer of a queue was handed to a caller */
  ghost function Received(b: Books, sk: Sock): (c: Books)
    requires sk in b.queues && b.queues[sk] != []
    ensures c.origin == b.origin
  {
    var q := b.queues[sk];
    b.(queues := b.queues[sk := q[1..]], received := b.received + [q[0]])
  }

  /** So does handing the first buffer of a queue to a caller, */
  lemma ReceivedKeepsLinear(b: Books, sk: Sock)
    requires Linear(b) && sk in b.queues && b.queues[sk] != []
    ensures Linear(Received(b, sk))
  {
    var q, c := b.queues[sk], Received(b, sk);
    assert q == [q[0]] + q[1..] && q[0] in q;
    assert q[0] !in q[1..];
    forall k, x | k in c.queues && x in c.queues[k] ensures x in b.queues[k] && x != q[0] {
      assert k != sk && x == q[0] ==> k == sk;
    }
    assert Settled(c) == Settled(b) + [q[0]];
    assert Settled(b) + [] == Settled(b) && Settled(b) + [q[0]] + [] == Settled(c);
    InsertAt(Settled(b), [], q[0]);
    forall x | x in c.origin ensures x in Settled(c) || OnQueue(c, x) {
      if x !in Settled(c) {
        var k :| k in b.queues && x in b.queues[k];
        assert x in c.queues[k];
      }
    }
  }

  lemma FirstOnQueue(b: Books, sk: Sock)
    requires Linear(b) && sk in b.queues && b.queues[sk] != []
    ensures b.queues[sk][0] in b.origin && OnQueue(b, b.queues[sk][0])
  {
    assert b.queues[sk][0] in b.queues[sk];
  }

  /** What is still on a queue was there before, and is another buffer. */
  lemma ReceivedOnQueue(b: Books, sk: Sock, skb: SkBuff)
    requires Linear(b) && sk in b.queues && b.queues[sk] != [] && OnQueue(Received(b, sk), skb)
    ensures OnQueue(b, skb) && skb != b.queues[sk][0]
  {
    ReceivedKeepsLinear(b, sk);
    var c := Received(b, sk);
    var k :| k in c.queues && skb in c.queues[k];
    assert skb in b.queues[k];
    assert skb !in Settled(c) && b.queues[sk][0] in Settled(c);
  }

  /** and giving a port to a socket with an empty queue. */
  lemma BoundKeepsLinear(b: Books, sk: Sock)
    requires Linear(b) && sk !in b.queues
    ensures Linear(b.(queues := b.queues[sk := []]))
  {
    var c := b.(queues := b.queues[sk := []]);
    forall x | x in c.origin ensures x in Settled(c) || OnQueue(c, x) {
      if x !in Settled(c) {
        var k :| k in b.queues && x in b.queues[k];
        assert x in c.queues[k];
      }
    }
  }

  /** Every buffer on a queue can be read. */
  ghost predicate AllLegible(b: Books)
    reads b.origin.Keys
  {
    forall skb :: skb in b.origin && OnQueue(b, skb) ==> Legible(skb)
  }

  lemma EnteredKeepsLegible(b: Books, table: seq<Option<Sock>>, v: Verdict, skb: SkBuff, f: Bytes)
    requires Linear(b) && AllLegible(b) && (v.Delivered? ==> Legible(skb))
    ensures AllLegible(Entered(TakenIn(b, skb, f), table, v, skb))
  {
    hide Legible;
    var c := Entered(TakenIn(b, skb, f), table, v, skb);
    forall x | x in c.origin && OnQueue(c, x) ensures Legible(x) {
      var sk :| sk in c.queues && x in c.queues[sk];
      if !(v.Delivered? && x == skb) {
        assert x in b.queues[sk];
        assert x in b.origin && OnQueue(b, x);
      }
    }
  }

  lemma BoundKeepsLegible(b: Books, sk: Sock)
    requires AllLegible(b)
    ensures AllLegible(b.(queues := b.queues[sk := []]))
  {
    hide Legible;
    var c := b.(queues := b.queues[sk := []]);
    forall x | x in c.origin && OnQueue(c, x) ensures OnQueue(b, x) {
      var k :| k in c.queues && x in c.queues[k];
      assert x in b.queues[k];
    }
  }

  /** Where the buffers are is where their frames' bytes put them: unclaimed exactly if the frame was a well-formed packet
      for this host and for a transport that nobody registered; on a queue or received only if it held a datagram for this
      host. As every buffer is in exactly one place, all others have been freed. */
  ghost predicate Justified(b: Books, dev: Device, local: iset<uint32>, protos: seq<byte>) {
    && (forall skb :: skb in b.origin ==> (skb in b.unclaimed <==> Unregistered(b.origin[skb], dev, local, protos)))
    && (forall skb :: skb in b.origin && (skb in b.received || OnQueue(b, skb)) ==> HasDatagram(b.origin[skb], dev, local, protos))
  }

  lemma EnteredKeepsJustified(b: Books, table: seq<Option<Sock>>, v: Verdict, skb: SkBuff, f: Bytes,
                              dev: Device, local: iset<uint32>, protos: seq<byte>)
    requires Linear(b) && Justified(b, dev, local, protos) && skb !in b.origin
    requires v.Unclaimed? <==> Unregistered(f, dev, local, protos)
    requires v.Delivered? ==> HasDatagram(f, dev, local, protos)
    ensures Justified(Entered(TakenIn(b, skb, f), table, v, skb), dev, local, protos)
  {
    hide Unregistered;
    hide HasDatagram;
    var c := Entered(TakenIn(b, skb, f), table, v, skb);
    assert skb !in Settled(b);
    forall x | x in c.origin && (x in c.received || OnQueue(c, x)) ensures HasDatagram(c.origin[x], dev, local, protos) {
      if x !in c.received {
        var sk :| sk in c.queues && x in c.queues[sk];
        if x != skb || !v.Delivered? {
          assert x in b.queues[sk] && x in b.origin;
          assert OnQueue(b, x);
        }
      } else {
        assert x in Settled(b);
      }
    }
    forall x | x in c.origin ensures x in c.unclaimed <==> Unregistered(c.origin[x], dev, local, protos) {
      assert x == skb ==> x !in b.unclaimed;
    }
  }

  /** The books after a frame has arrived */
  lemma ArrivedKeeps(b: Books, table: seq<Option<Sock>>, ptypes: seq<PacketType>, frame: Bytes, skb: SkBuff,
                     dev: Device, local: iset<uint32>, protos: seq<byte>, ports: set<nat>)
    requires |frame| >= ETH_HLEN && Linear(b) && skb !in b.origin && (ptypes == PTYPES ==> Justified(b, dev, local, protos))
    requires var v := FrameVerdict(ptypes, frame, dev, local, protos, ports);
             v.Delivered? ==> v.port < |table| && table[v.port].Some? && table[v.port].value in b.queues
    ensures var v := FrameVerdict(ptypes, frame, dev, local, protos, ports);
            var c := Entered(TakenIn(b, skb, Read(frame)), table, v, skb);
            Linear(c) && (ptypes == PTYPES ==> Justified(c, dev, local, protos))
  {
    hide Linear;
    hide Justified;
    hide FrameVerdict;
    hide FrameEffect;
    hide Unregistered;
    hide HasDatagram;
    hide Entered;
    hide Classify;
    hide AfterArp;
    var v := FrameVerdict(ptypes, frame, dev, local, protos, ports);
    EnteredKeepsLinear(b, table, v, skb, Read(frame));
    if ptypes == PTYPES {
      VerdictExactly(INIT, frame, dev, local, protos, ports);
      EnteredKeepsJustified(b, table, v, skb, Read(frame), dev, local, protos);
    }
  }

  lemma ReceivedKeepsJustified(b: Books, sk: Sock, dev: Device, local: iset<uint32>, protos: seq<byte>)
    requires Justified(b, dev, local, protos) && sk in b.queues && b.queues[sk] != []
    ensures Justified(Received(b, sk), dev, local, protos)
  {
    hide Unregistered;
    hide HasDatagram;
    var q, c := b.queues[sk], Received(b, sk);
    assert q[0] in q;
    forall x | x in c.origin && (x in c.received || OnQueue(c, x)) ensures HasDatagram(c.origin[x], dev, local, protos) {
      if x !in b.received && x != q[0] {
        var k :| k in c.queues && x in c.queues[k];
        assert x in b.queues[k];
      } else if x == q[0] {
        assert OnQueue(b, x);
      }
    }
  }

  lemma BoundKeepsJustified(b: Books, sk: Sock, dev: Device, local: iset<uint32>, protos: seq<byte>)
    requires Justified(b, dev, local, protos)
    ensures Justified(b.(queues := b.queues[sk := []]), dev, local, protos)
  {
    hide Unregistered;
    hide HasDatagram;
    var c := b.(queues := b.queues[sk := []]);
    forall x | x in c.origin && OnQueue(c, x) ensures OnQueue(b, x) {
      var k :| k in c.queues && x in c.queues[k];
      assert x in b.queues[k];
    }
  }

  // ---------- the stack ----------

  ghost function SocketsIn(table: seq<Option<Sock>>): set<Sock> {
    set k: nat | k < |table| && table[k].Some? :: table[k].value
  }

  /** The port that a socket gets: the one asked for, or the lowest free one */
  ghost function PortFor(ports: set<nat>, snum: uint16): Option<nat> {
    if snum == 0 then LowestFree(ports, 0)
    else if snum < MAXUDPSOCKNUM && snum !in ports then Some(snum) else None
  }

  ghost function LowestFree(ports: set<nat>, from: nat): Option<nat>
    decreases MAXUDPSOCKNUM - from
  {
    if from >= MAXUDPSOCKNUM then None else if from !in ports then Some(from) else LowestFree(ports, from + 1)
  }

  lemma {:induction false} LowestFreeIs(ports: set<nat>, from: nat, port: nat)
    requires from <= port <= MAXUDPSOCKNUM && port !in ports && (forall k :: from <= k < port ==> k in ports)
    ensures LowestFree(ports, from) == if port < MAXUDPSOCKNUM then Some(port) else None
    decreases port - from
  {
    if from < port {
      LowestFreeIs(ports, from + 1, port);
    }
  }

  lemma BoundSockets(table: seq<Option<Sock>>, port: nat, sk: Sock)
    requires port < |table| && table[port].None?
    ensures SocketsIn(table[port := Some(sk)]) == SocketsIn(table) + {sk}
  {
    var after := table[port := Some(sk)];
    assert after[port] == Some(sk);
    forall x | x in SocketsIn(table) ensures x in SocketsIn(after) {
      var k: nat :| k < |table| && table[k] == Some(x);
      assert after[k] == Some(x);
    }
  }

  /** What can happen to the received buffers */
  datatype Call = Arrives(frame: Bytes) | Binds(sk: Sock, snum: uint16) | Receives(port: nat)

  class Stack {
    const fib: Tables
    const arp: ArpTable
    /** `ptype_base`, head first */
    var ptypes: seq<PacketType>
    /** `inet_protos`, head first, all of them handled by `udp_rcv` */
    var protos: seq<byte>
    /** `udptable`, indexed by port; `None` is an unused entry */
    const udptable: array<Option<Sock>>
    const ledger: Ledger

    ghost predicate Valid()
      reads this, udptable, arp, arp.buckets, fib, fib.local, fib.local.zones, fib.main, fib.main.zones
    {
      udptable.Length == MAXUDPSOCKNUM && fib.Valid() && arp.Valid()
    }

    ghost function Ports(): set<nat>
      reads udptable
    {
      set k: nat | k < udptable.Length && udptable[k].Some?
    }

    ghost function Socks(): set<Sock>
      reads udptable
    {
      set k: nat | k < udptable.Length && udptable[k].Some? :: udptable[k].value
    }

    ghost function Local(): iset<uint32>
      reads fib, fib.local, fib.main
    {
      iset a: uint32 | IsLocalAddr(fib.local.routes, fib.main.routes, a)
    }

    ghost function Table(): seq<Option<Sock>>
      reads udptable
    {
      udptable[..]
    }

    ghost function Account(): Books
      reads ledger, udptable, Socks()`receiveQueue
    {
      Books(ledger.origin, ledger.freed, ledger.unclaimed, ledger.received, map sk | sk in Socks() :: sk.receiveQueue)
    }

    /** The buffer is where the verdict says and nowhere else; a delivered one holds its datagram. */
    ghost predicate Took(before: Books, v: Verdict, skb: SkBuff)
      reads ledger, udptable, Socks()`receiveQueue, skb, skb.buf
    {
      && Account() == Entered(before, Table(), v, skb)
      && (v.Delivered? ==> v.port in Ports() && Holds(skb, v.datagram))
    }

    /** `inet_init` without its ICMP part: ARP is registered before IP, which therefore comes first. */
    constructor ()
      ensures Valid() && Ports() == {} && Socks() == {}
      ensures ptypes == [PacketType(Htons(ETH_P_IP), None, IpHandler), PacketType(Htons(ETH_P_ARP), None, ArpHandler)]
      ensures protos == [IPPROTO_UDP]
      ensures arp.state == INIT && arp.buckets == [] && fib.local.routes == [] && fib.main.routes == []
      ensures ledger.origin == map[] && ledger.freed == ledger.unclaimed == ledger.received == []
      ensures fresh(fib) && fresh(fib.local) && fresh(fib.local.zones) && fresh(fib.main) && fresh(fib.main.zones)
      ensures fresh(arp) && fresh(udptable) && fresh(ledger)
    {
      hide ArpTable.Valid;
      hide Tables.Valid;
      hide Htons;
      fib := new Tables();
      arp := new ArpTable();
      ledger := new Ledger();
      ptypes := [];
      protos := [];
      udptable := new Option<Sock>[MAXUDPSOCKNUM](_ => None);
      new;
      protos := [IPPROTO_UDP] + protos;
      DevAddPack(PacketType(Htons(ETH_P_ARP), None, ArpHandler));
      DevAddPack(PacketType(Htons(ETH_P_IP), None, IpHandler));
    }

    /** `dev_add_pack` */
    method DevAddPack(pt: PacketType)
      modifies this`ptypes
      ensures ptypes == [pt] + old(ptypes)
    {
      ptypes := [pt] + ptypes;
    }

    /** `__udp4_lib_lookup`: the port whose socket is to have the datagram */
    method UdpLookup(dport: uint16) returns (port: Option<nat>)
      requires udptable.Length == MAXUDPSOCKNUM
      ensures var hnum := Htons(dport); port == if hnum < MAXUDPSOCKNUM && hnum in Ports() then Some(hnum) else None
    {
      var hnum := Htons(dport);
      if hnum < MAXUDPSOCKNUM && udptable[hnum].Some? {
        return Some(hnum);
      }
      return None;
    }

    /** `kfree_skb` */
    method Free(skb: SkBuff)
      modifies ledger`freed
      ensures Account() == Entered(old(Account()), Table(), Freed, skb)
    {
      ledger.KfreeSkb(skb);
    }

    /** No transport takes the buffer. */
    ghost method Lose(skb: SkBuff)
      modifies ledger`unclaimed
      ensures Account() == Entered(old(Account()), Table(), Unclaimed, skb)
    {
      ledger.unclaimed := ledger.unclaimed + [skb];
    }

    /** `sock_queue_rcv_skb` on the socket of a port in use */
    method QueueRcvSkb(port: nat, skb: SkBuff, ghost d: Datagram)
      requires port in Ports()
      modifies Socks()`receiveQueue
      ensures Account() == Entered(old(Account()), Table(), Delivered(port, d), skb)
    {
      var sk := udptable[port].value;
      sk.receiveQueue := sk.receiveQueue + [skb];
    }

    /** `__udp4_lib_rcv` with `sock_queue_rcv_skb` */
    method UdpRcv(skb: SkBuff) returns (ret: int)
      requires udptable.Length == MAXUDPSOCKNUM
      requires skb.Geometry() && 0 <= skb.nh && skb.nh + IP_HLEN <= skb.buf.Length && skb.h == skb.data
      modifies ledger`freed, Socks()`receiveQueue
      ensures ret == NET_RX_SUCCESS
      ensures Took(old(Account()), UdpVerdict(U32At(skb.buf[..], skb.nh + 12), skb.View(), Ports()), skb)
    {
      hide Stack.Account;
      hide Stack.Table;
      hide Htons;
      if skb.len < UDP_HLEN {
        Free(skb);
        return NET_RX_SUCCESS;
      }
      var segment := skb.buf[..][skb.data..skb.tail];
      var port := UdpLookup(U16At(segment, 2));
      if port.Some? {
        QueueRcvSkb(port.value, skb, Datagram(U32At(skb.buf[..], skb.nh + 12), U16At(segment, 0), segment[UDP_HLEN..]));
        return NET_RX_SUCCESS;
      }
      Free(skb);
      return NET_RX_SUCCESS;
    }

    /** `ip_local_deliver_finish`: moves the buffer past the IP header and looks for its transport. */
    method IpLocalDeliver(skb: SkBuff) returns (ret: int)
      requires udptable.Length == MAXUDPSOCKNUM
      requires skb.Geometry() && skb.nh == skb.data && |skb.View()| >= IP_HLEN
      requires |skb.View()| >= skb.View()[0] % 0x10 * 4 >= IP_HLEN
      modifies ledger`freed, ledger`unclaimed, Socks()`receiveQueue, skb`data, skb`len, skb`h
      ensures ret == NET_RX_SUCCESS
      ensures var p := old(skb.View());
              Took(old(Account()), if IpProto(p) in protos then UdpVerdict(IpSaddr(p), IpBody(p), Ports()) else Unclaimed, skb)
    {
      hide Stack.Account;
      hide Stack.Table;
      hide Holds;
      hide UdpVerdict;
      ghost var p := skb.View();
      var ihl := skb.buf[skb.nh] % 0x10 * 4;
      var _ := skb.Pull(ihl);
      skb.h := skb.data;
      var protocol := skb.buf[skb.nh + 9];
      assert skb.View() == IpBody(p);
      var ipprot := 0;
      while ipprot < |protos|
        invariant ipprot <= |protos| && protocol !in protos[..ipprot]
      {
        if protos[ipprot] == protocol {
          ret := UdpRcv(skb);
          return;
        }
        ipprot := ipprot + 1;
      }
      Lose(skb);
      return NET_RX_SUCCESS;
    }

    /** `ip_rcv` with `ip_rcv_finish` */
    method IpRcv(skb: SkBuff, dev: Device) returns (ret: int)
      requires Valid() && skb.Geometry() && skb.nh == skb.data
      modifies ledger`freed, ledger`unclaimed, Socks()`receiveQueue, skb`data, skb`len, skb`h
      ensures var v := IpVerdict(old(skb.View()), old(skb.pktType), old(Local()), protos, Ports());
              && Took(old(Account()), v, skb) && ret == (if v.Dropped? then NET_RX_DROP else NET_RX_SUCCESS)
              && (v.Dropped? ==> unchanged(skb))
    {
      hide ArpTable.Valid;
      hide Tables.Valid;
      hide IsLocalAddr;
      hide UdpVerdict;
      hide Stack.Account;
      hide Stack.Table;
      hide Holds;
      hide InternetChecksum;
      if skb.pktType == PacketOtherhost {
        return NET_RX_DROP;
      }
      if skb.pktType == PacketMulticast || skb.pktType == PacketBroadcast {
        return NET_RX_DROP;
      }
      var iph := skb.buf[..][skb.data..skb.tail];
      var ok := IpCheck(iph);
      if !ok {
        return NET_RX_DROP;
      }
      var rt := IpRouteInput(fib, U32At(iph, 16), U32At(iph, 12), dev);
      if rt.None? {
        return NET_RX_DROP;
      }
      ret := IpLocalDeliver(skb);
    }

    /** The walk of `netif_receive_skb` along the registered handlers */
    method FindHandler(proto: uint16, dev: Device) returns (handler: Option<Handler>)
      ensures handler == HandlerFor(ptypes, proto, dev)
      ensures handler.None? ==>
                forall i :: 0 <= i < |ptypes| ==> ptypes[i].proto != proto || (ptypes[i].dev.Some? && ptypes[i].dev.value != dev)
      ensures handler.Some? ==>
                exists i :: 0 <= i < |ptypes| && handler == Some(ptypes[i].handler)
                  && ptypes[i].proto == proto && (ptypes[i].dev.None? || ptypes[i].dev.value == dev)
                  && forall j :: 0 <= j < i ==> ptypes[j].proto != proto || (ptypes[j].dev.Some? && ptypes[j].dev.value != dev)
    {
      var ptype := 0;
      while ptype < |ptypes|
        invariant ptype <= |ptypes|
        invariant HandlerFor(ptypes[ptype..], proto, dev) == HandlerFor(ptypes, proto, dev)
        invariant forall j :: 0 <= j < ptype ==> !Takes(ptypes[j], proto, dev)
      {
        if Takes(ptypes[ptype], proto, dev) {
          return Some(ptypes[ptype].handler);
        }
        assert ptypes[ptype..][1..] == ptypes[ptype + 1..];
        ptype := ptype + 1;
      }
      return None;
    }

    /** `arp_rcv`: the buffer is freed. */
    method ArpTake(skb: SkBuff, dev: Device) returns (ret: int)
      requires Valid() && skb.Geometry() && skb.nh == skb.data
      modifies ledger`freed, arp, arp.buckets
      ensures Valid() && forall m :: m in arp.buckets ==> m in old(arp.buckets) || fresh(m)
      ensures forall m :: m in old(arp.buckets) ==> m in arp.buckets
      ensures ret == NET_RX_SUCCESS && Account() == Entered(old(Account()), Table(), Freed, skb)
      ensures arp.state == AfterArp(old(arp.state), dev, skb.View(), skb.pktType, old(Local()))
    {
      hide ArpTable.Valid;
      hide Tables.Valid;
      hide ParseArp;
      hide ArpInput;
      hide IsLocalAddr;
      ret := arp.ArpRcv(skb, dev, fib, ledger);
    }

    /** `netif_receive_skb` up to its handler's return: the headers are located, the handler, if there is one, is called. */
    method Dispatch(handler: Option<Handler>, skb: SkBuff, dev: Device) returns (ret: int)
      requires Valid() && skb.Geometry()
      modifies ledger`freed, ledger`unclaimed, Socks()`receiveQueue, skb`data, skb`len, skb`h, skb`nh, arp, arp.buckets
      ensures Valid() && forall m :: m in arp.buckets ==> m in old(arp.buckets) || fresh(m)
      ensures forall m :: m in old(arp.buckets) ==> m in arp.buckets
      ensures var v := HandlerVerdict(handler, old(skb.View()), skb.pktType, old(Local()), protos, old(Ports()));
              Took(old(Account()), v, skb) && ret == if v.Dropped? then NET_RX_DROP else NET_RX_SUCCESS
      ensures arp.state == BufferEffect(handler, old(arp.state), dev, old(skb.View()), skb.pktType, old(Local()))
    {
      hide ArpTable.Valid;
      hide Tables.Valid;
      hide AfterArp;
      hide Stack.Local;
      hide Holds;
      hide Stack.Account;
      hide Stack.Table;
      hide IpVerdict;
      skb.h, skb.nh := skb.data, skb.data;
      ret := NET_RX_DROP;
      match handler {
        case None =>
        case Some(ArpHandler) => ret := ArpTake(skb, dev);
        case Some(IpHandler) => ret := IpRcv(skb, dev);
      }
    }

    /** `netif_receive_skb`: whatever arrives, the buffer is freed exactly once, or sits on exactly one receive
        queue, or was for a transport nobody registered. */
    method NetifReceiveSkb(skb: SkBuff, dev: Device) returns (ret: int)
      requires Valid() && skb.Geometry()
      modifies ledger`freed, ledger`unclaimed, Socks()`receiveQueue, skb`data, skb`len, skb`h, skb`nh, arp, arp.buckets
      ensures Valid() && forall m :: m in arp.buckets ==> m in old(arp.buckets) || fresh(m)
      ensures forall m :: m in old(arp.buckets) ==> m in arp.buckets
      ensures var handler := HandlerFor(ptypes, skb.protocol, dev);
              var v := HandlerVerdict(handler, old(skb.View()), skb.pktType, old(Local()), protos, old(Ports()));
              && ret == (if v.Dropped? then NET_RX_DROP else NET_RX_SUCCESS)
              && Took(old(Account()), BufferVerdict(handler, old(skb.View()), skb.pktType, old(Local()), protos, old(Ports())), skb)
              && arp.state == BufferEffect(handler, old(arp.state), dev, old(skb.View()), skb.pktType, old(Local()))
    {
      hide ArpTable.Valid;
      hide Tables.Valid;
      hide AfterArp;
      hide HandlerFor;
      hide Holds;
      hide HandlerVerdict;
      hide BufferEffect;
      hide Stack.Account;
      hide Stack.Table;
      hide Stack.Local;
      hide Stack.Ports;
      var handler := FindHandler(skb.protocol, dev);
      ret := Dispatch(handler, skb, dev);
      if ret == NET_RX_DROP {
        Free(skb);
      }
    }

    /** `eth_type_trans`: classifies the frame and moves the buffer past the link header. */
    method EthTypeTrans(skb: SkBuff, dev: Device) returns (proto: uint16)
      requires skb.Geometry() && |skb.View()| >= ETH_HLEN
      requires skb.pktType == PacketHost
      modifies skb`mac, skb`data, skb`len, skb`pktType
      ensures var f := old(skb.View());
              skb.Geometry() && skb.View() == EthBody(f) && skb.pktType == Classify(EthDest(f), dev) && proto == U16At(f, 12)
    {
      hide IsMulticastEtherAddr;
      hide CompareEtherAddr;
      skb.mac := skb.data;
      var _ := skb.Pull(ETH_HLEN);
      var eth := skb.buf[..][skb.mac..skb.tail];
      var dest := eth[..6];
      if IsMulticastEtherAddr(dest) {
        if CompareEtherAddr(dest, BROADCAST_ADDR) == 0 {
          skb.pktType := PacketBroadcast;
        } else {
          skb.pktType := PacketMulticast;
        }
      } else if CompareEtherAddr(dest, dev.devAddr) != 0 {
        skb.pktType := PacketOtherhost;
      }
      return U16At(eth, 12);
    }

    /** The buffer that `ether_rx` fills from the device */
    method FrameBuffer(buff: Bytes) returns (skb: SkBuff)
      ensures fresh(skb) && fresh(skb.buf) && skb.Geometry() && skb.View() == buff && skb.pktType == PacketHost
    {
      skb := new SkBuff(|buff|);
      var at := skb.Put(|buff|);
      Memcpy(skb.buf, at.value, buff);
    }

    /** The first part of `ether_rx`: the frame in a new buffer, classified and positioned behind its link header */
    method ReadFrame(buff: Bytes, dev: Device) returns (skb: SkBuff)
      requires |buff| >= ETH_HLEN
      ensures fresh(skb) && fresh(skb.buf) && skb.Geometry() && skb.View() == EthBody(buff)
      ensures skb.pktType == Classify(EthDest(buff), dev) && skb.protocol == U16At(buff, 12)
    {
      hide Classify;
      skb := FrameBuffer(buff);
      skb.protocol := EthTypeTrans(skb, dev);
    }

    /** The rest of `ether_rx`, for a frame that can carry a link header */
    method TakeFrame(buff: Bytes, dev: Device) returns (skb: SkBuff)
      requires Valid() && |buff| >= ETH_HLEN
      modifies ledger`origin, ledger`freed, ledger`unclaimed, Socks()`receiveQueue, arp, arp.buckets
      ensures Valid() && forall m :: m in arp.buckets ==> m in old(arp.buckets) || fresh(m)
      ensures forall m :: m in old(arp.buckets) ==> m in arp.buckets
      ensures fresh(skb) && fresh(skb.buf)
      ensures Took(TakenIn(old(Account()), skb, buff), SeenVerdict(ptypes, buff, dev, old(Local()), protos, old(Ports())), skb)
      ensures arp.state == SeenEffect(ptypes, old(arp.state), buff, dev, old(Local()))
    {
      hide ArpTable.Valid;
      hide Tables.Valid;
      hide BufferVerdict;
      hide HandlerVerdict;
      hide BufferEffect;
      hide Classify;
      hide HandlerFor;
      hide Holds;
      hide U16At;
      hide EthBody;
      hide EthDest;
      hide Stack.Local;
      hide Stack.Ports;
      hide Stack.Account;
      hide Stack.Table;
      skb := ReadFrame(buff, dev);
      Take(skb, buff);
      var _ := NetifReceiveSkb(skb, dev);
    }

    ghost method Take(skb: SkBuff, f: Bytes)
      modifies ledger`origin
      ensures Account() == TakenIn(old(Account()), skb, f)
    {
      ledger.origin := ledger.origin[skb := f];
    }

    /** `ether_rx`, given the frame that the tap device holds. A frame too short to carry a link header is
        ignored. */
    method EtherRx(frame: Bytes, dev: Device) returns (skb: SkBuff?)
      requires Valid()
      modifies ledger`origin, ledger`freed, ledger`unclaimed, Socks()`receiveQueue, arp, arp.buckets
      ensures Valid() && forall m :: m in arp.buckets ==> m in old(arp.buckets) || fresh(m)
      ensures forall m :: m in old(arp.buckets) ==> m in arp.buckets
      ensures skb == null <==> |frame| < ETH_HLEN
      ensures skb == null ==> arp.state == old(arp.state) && Account() == old(Account())
      ensures skb != null ==>
                && fresh(skb) && fresh(skb.buf)
                && Took(TakenIn(old(Account()), skb, Read(frame)), FrameVerdict(ptypes, frame, dev, old(Local()), protos, old(Ports())), skb)
                && arp.state == FrameEffect(ptypes, old(arp.state), frame, dev, old(Local()))
      ensures skb != null && ptypes == PTYPES ==>
                var f := Read(frame);
                var lost := Unregistered(f, dev, old(Local()), protos);
                var delivered := ForPort(f, dev, old(Local()), protos, old(Ports()));
                && ledger.unclaimed == old(ledger.unclaimed) + (if lost then [skb] else [])
                && ledger.freed == old(ledger.freed) + (if !lost && !delivered then [skb] else [])
    {
      hide Stack.Valid;
      hide SeenVerdict;
      hide SeenEffect;
      hide Unregistered;
      hide ForPort;
      hide AfterArp;
      hide Classify;
      hide Stack.Local;
      hide Stack.Ports;
      hide Stack.Took;
      hide Stack.Account;
      var buff := if |frame| <= ETH_HLEN + ETH_DATA_LEN then frame else frame[..ETH_HLEN + ETH_DATA_LEN];
      if |buff| < ETH_HLEN {
        return null;
      }
      ghost var v := SeenVerdict(ptypes, buff, dev, Local(), protos, Ports());
      InBooks();
      skb := TakeFrame(buff, dev);
      Booked(old(Account()), v, skb, buff);
      VerdictExactly(old(arp.state), frame, dev, old(Local()), protos, old(Ports()));
    }

    lemma Booked(before: Books, v: Verdict, skb: SkBuff, f: Bytes)
      requires Took(TakenIn(before, skb, f), v, skb)
      ensures ledger.unclaimed == before.unclaimed + (if v.Unclaimed? then [skb] else [])
      ensures ledger.freed == before.freed + (if v.Freed? then [skb] else [])
    {
    }

    lemma InBooks()
      ensures Account().freed == ledger.freed && Account().unclaimed == ledger.unclaimed
    {
    }

    /** `udp_v4_get_port`: a socket gets the port it asks for, or the lowest free one, and no port ever changes
        hands. */
    method UdpGetPort(sk: Sock, snum: uint16) returns (err: int)
      requires udptable.Length == MAXUDPSOCKNUM
      modifies udptable, sk`num
      ensures err == 0 || err == -1
      ensures err == -1 <==> if snum == 0 then forall k :: 0 <= k < MAXUDPSOCKNUM ==> old(udptable[k]).Some?
                             else snum >= MAXUDPSOCKNUM || old(udptable[snum]).Some?
      ensures err == -1 ==> udptable[..] == old(udptable[..]) && sk.num == old(sk.num)
      ensures err == 0 ==>
                && sk.num < MAXUDPSOCKNUM && old(udptable[..])[sk.num].None?
                && udptable[..] == old(udptable[..])[sk.num := Some(sk)]
                && (snum != 0 ==> sk.num == snum)
                && (snum == 0 ==> forall k :: 0 <= k < sk.num ==> old(udptable[k]).Some?)
    {
      var port: int := snum;
      if snum == 0 {
        port := 0;
        while port < MAXUDPSOCKNUM
          invariant 0 <= port <= MAXUDPSOCKNUM && udptable[..] == old(udptable[..])
          invariant forall k :: 0 <= k < port ==> udptable[k].Some?
        {
          if udptable[port].None? {
            break;
          }
          port := port + 1;
        }
        if port == MAXUDPSOCKNUM {
          return -1;
        }
      } else {
        if snum >= MAXUDPSOCKNUM {
          return -1;
        }
        if udptable[snum].Some? {
          return -1;
        }
      }
      udptable[port] := Some(sk);
      sk.num := port;
      return 0;
    }

    // ---------- ownership over whole runs ----------

    /** The queues as the books have them */
    lemma Queues()
      ensures Account().queues.Keys == Socks() && Account().origin == ledger.origin
      ensures forall sk :: sk in Socks() ==> Account().queues[sk] == sk.receiveQueue
      ensures forall port :: port in Ports() ==> port < |Table()| && Table()[port].Some? && Table()[port].value in Socks()
    {
    }

    lemma NewInOrder()
      requires Socks() == {} && ledger.origin == map[] && ledger.freed == ledger.unclaimed == ledger.received == []
      ensures InOrder() && forall dev :: InPlace(dev)
    {
    }

    /** Every buffer is in exactly one place, and those on a receive queue can be read. */
    ghost predicate InOrder()
      reads ledger, udptable, Socks()`receiveQueue, ledger.origin.Keys
    {
      Linear(Account()) && AllLegible(Account())
    }

    /** The buffers are where their frames put them. */
    ghost predicate InPlace(dev: Device)
      reads this, ledger, udptable, Socks()`receiveQueue, fib, fib.local, fib.main
    {
      ptypes == PTYPES ==> Justified(Account(), dev, Local(), protos)
    }

    /** A frame arrives. */
    method Arrive(frame: Bytes, dev: Device)
      requires Valid() && InOrder() && InPlace(dev)
      modifies ledger, Socks()`receiveQueue, arp, arp.buckets
      ensures Valid() && InOrder() && InPlace(dev) && Socks() == old(Socks())
      ensures forall b :: b in ledger.origin ==> b in old(ledger.origin) || fresh(b)
      ensures forall m :: m in arp.buckets ==> m in old(arp.buckets) || fresh(m)
    {
      hide ArpTable.Valid;
      hide Tables.Valid;
      hide Linear;
      hide FrameVerdict;
      hide FrameEffect;
      hide Stack.Account;
      hide Stack.Table;
      hide Stack.Local;
      hide Stack.Ports;
      hide Justified;
      hide Unregistered;
      hide ForPort;
      hide AllLegible;
      hide Entered;
      ghost var before := Account();
      Queues();
      var skb := EtherRx(frame, dev);
      Queues();
      assert AllLegible(before);
      if skb != null {
        ghost var v := FrameVerdict(ptypes, frame, dev, old(Local()), protos, old(Ports()));
        ArrivedKeeps(before, Table(), ptypes, frame, skb, dev, old(Local()), protos, old(Ports()));
        EnteredKeepsLegible(before, Table(), v, skb, Read(frame));
      }
    }

    lemma SocksOfTable()
      ensures Socks() == SocketsIn(udptable[..])
    {
      assert forall k :: 0 <= k < udptable.Length ==> udptable[..][k] == udptable[k];
    }

    /** `udp_v4_get_port`, in terms of the books: its socket's queue is entered there. */
    method Assign(sk: Sock, snum: uint16) returns (err: int)
      requires udptable.Length == MAXUDPSOCKNUM
      modifies udptable, sk`num
      ensures err == (if PortFor(old(Ports()), snum).None? then -1 else 0)
      ensures err == -1 ==> Table() == old(Table()) && Account() == old(Account())
      ensures err == 0 ==>
                && PortFor(old(Ports()), snum) == Some(sk.num) && sk.num < |old(Table())| && old(Table())[sk.num].None?
                && Table() == old(Table())[sk.num := Some(sk)]
      ensures err == 0 ==> Account() == old(Account()).(queues := old(Account()).queues[sk := sk.receiveQueue])
    {
      hide SocketsIn;
      ghost var table := Table();
      SocksOfTable();
      err := UdpGetPort(sk, snum);
      SocksOfTable();
      if snum == 0 {
        LowestFreeIs(old(Ports()), 0, if err == 0 then sk.num else MAXUDPSOCKNUM);
      }
      if err == 0 {
        BoundSockets(table, sk.num, sk);
      }
      assert Socks() == old(Socks()) + if err == 0 then {sk} else {};
    }

    /** A socket asks for a port. */
    method Bind(sk: Sock, snum: uint16, ghost dev: Device) returns (err: int)
      requires Valid() && InOrder() && InPlace(dev) && (sk in Socks() || sk.receiveQueue == [])
      modifies udptable, sk`num
      ensures Valid() && InOrder() && InPlace(dev) && old(Socks()) <= Socks() <= old(Socks()) + {sk}
    {
      hide ArpTable.Valid;
      hide Tables.Valid;
      hide Linear;
      hide Legible;
      hide Stack.Table;
      ghost var before := Account();
      err := Assign(sk, snum);
      assert Socks() == Account().queues.Keys && old(Socks()) == before.queues.Keys;
      if err == 0 && sk !in before.queues {
        BoundKeepsLinear(before, sk);
        BoundKeepsLegible(before, sk);
        if ptypes == PTYPES {
          BoundKeepsJustified(before, sk, dev, Local(), protos);
        }
      }
      assert err == 0 && sk in before.queues ==> Account() == before;
    }

    /** `udp_recvmsg`, in terms of the books, into a buffer that is large enough */
    method TakeFirst(sk: Sock)
      requires sk in Socks() && sk.receiveQueue != [] && Legible(sk.receiveQueue[0])
      modifies ledger`received, sk`receiveQueue, sk.receiveQueue[0]
      ensures sk in old(Account()).queues && old(Account()).queues[sk] == old(sk.receiveQueue)
      ensures Account() == Received(old(Account()), sk)
    {
      var first := sk.receiveQueue[0];
      ghost var segment := first.buf[..][first.data..first.tail];
      ghost var d := Datagram(U32At(first.buf[..], first.nh + 12), U16At(segment, 0), segment[UDP_HLEN..]);
      var _, _, _ := UdpRecvmsg(sk, first.buf.Length, ledger, d);
    }

    /** A caller reads from the socket of a port, if there is one and a datagram waits there. */
    method Receive(port: nat, ghost dev: Device)
      requires Valid() && InOrder() && InPlace(dev)
      modifies ledger`received, Socks()`receiveQueue, ledger.origin.Keys
      ensures Valid() && InOrder() && InPlace(dev)
    {
      hide ArpTable.Valid;
      hide Tables.Valid;
      hide Justified;
      hide Stack.Local;
      hide Stack.Account;
      hide Linear;
      hide Received;
      hide Legible;
      if port < MAXUDPSOCKNUM && udptable[port].Some? && udptable[port].value.receiveQueue != [] {
        var sk := udptable[port].value;
        assert sk in Socks();
        Queues();
        ghost var before, first := Account(), sk.receiveQueue[0];
        FirstOnQueue(before, sk);
        ReceivedKeepsLinear(before, sk);
        if ptypes == PTYPES {
          ReceivedKeepsJustified(before, sk, dev, Local(), protos);
        }
        TakeFirst(sk);
        forall b | b in before.origin && OnQueue(Account(), b) ensures Legible(b) {
          ReceivedOnQueue(before, sk, b);
          assert old(Legible(b));
        }
      }
    }

    /** Linear ownership over a whole run: however many frames arrive, whatever they contain, whatever ports are asked for
        and whatever is read in between. */
    method Serve(calls: seq<Call>, dev: Device)
      requires Valid() && InOrder() && InPlace(dev)
      requires forall i :: 0 <= i < |calls| && calls[i].Binds? ==> calls[i].sk in Socks() || calls[i].sk.receiveQueue == []
      modifies ledger, udptable, Socks()`receiveQueue, ledger.origin.Keys, arp, arp.buckets
      modifies set i | 0 <= i < |calls| && calls[i].Binds? :: calls[i].sk
      ensures Valid() && InOrder() && InPlace(dev)
    {
      hide Stack.Valid;
      hide Stack.InOrder;
      hide Stack.InPlace;
      var i := 0;
      while i < |calls|
        invariant i <= |calls| && Valid() && InOrder() && InPlace(dev)
        invariant forall sk :: sk in Socks() ==> sk in old(Socks()) || exists j :: 0 <= j < |calls| && calls[j].Binds? && calls[j].sk == sk
        invariant forall j :: 0 <= j < |calls| && calls[j].Binds? ==> calls[j].sk in Socks() || calls[j].sk.receiveQueue == []
        invariant forall b :: b in ledger.origin ==> b in old(ledger.origin) || fresh(b)
        invariant forall m :: m in arp.buckets ==> m in old(arp.buckets) || fresh(m)
      {
        assert forall k :: 0 <= k < |arp.buckets| ==> arp.buckets[k] in arp.buckets;
        match calls[i] {
          case Arrives(frame) => Arrive(frame, dev);
          case Binds(sk, snum) => var _ := Bind(sk, snum, dev);
          case Receives(port) => Receive(port, dev);
        }
        i := i + 1;
      }
    }
  }

  /** `udp_recvmsg` on a non-empty queue, into a buffer of `size` bytes: the sender and exactly the payload of the
      first datagram. `skb_copy_datagram_iovec` copies all of it whatever the size, so it has to fit. */
  method UdpRecvmsg(sk: Sock, size: nat, ledger: Ledger, ghost d: Datagram)
    returns (payload: Bytes, saddr: uint32, sport: uint16)
    requires sk.receiveQueue != [] && Holds(sk.receiveQueue[0], d) && |d.payload| <= size
    modifies sk`receiveQueue, sk.receiveQueue[0], ledger`received
    ensures Datagram(saddr, sport, payload) == d
    ensures sk.receiveQueue == old(sk.receiveQueue)[1..]
    ensures ledger.received == old(ledger.received) + [old(sk.receiveQueue[0])]
  {
    var skb := sk.receiveQueue[0];
    sk.receiveQueue := sk.receiveQueue[1..];
    ledger.received := ledger.received + [skb];
    var segment := skb.buf[..][skb.data..skb.tail];
    var _ := skb.Pull(UDP_HLEN);
    payload := skb.buf[..][skb.data..skb.tail];
    sport := U16At(segment, 0);
    saddr := U32At(skb.buf[..], skb.nh + 12);
  }
}

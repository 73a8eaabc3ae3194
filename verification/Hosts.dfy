/** Whole hosts and what happens between them. A host hears frames as Input proves the receive path to act, and
    sends datagrams as Output proves the transmit path to act. */
module Hosts {
  import opened Words
  import opened Bits
  import opened Wrappers
  import opened Ethernet
  import opened Fib
  import opened FibFrontend
  import opened Frames
  import opened Resolution
  import opened Route
  import opened Input
  import opened Arrivals

  /** A host with one device: its routes, its neighbours and what waits on its sockets. */
  datatype Host = Host(dev: Device, local: seq<Config>, main: seq<Config>, neigh: State, queues: map<nat, seq<Datagram>>)

  ghost function LocalOf(h: Host): iset<uint32> {
    iset a: uint32 | IsLocalAddr(h.local, h.main, a)
  }

  ghost function Deliver(queues: map<nat, seq<Datagram>>, v: Verdict): map<nat, seq<Datagram>> {
    if v.Delivered? && v.port in queues then queues[v.port := queues[v.port] + [v.datagram]] else queues
  }

  /** A frame reaches the host (`ether_rx`). */
  ghost function Hear(h: Host, frame: Bytes): Host {
    if |frame| < ETH_HLEN then h
    else
      var neigh := FrameEffect(PTYPES, h.neigh, frame, h.dev, LocalOf(h));
      var v := FrameVerdict(PTYPES, frame, h.dev, LocalOf(h), [IPPROTO_UDP], h.queues.Keys);
      h.(neigh := neigh, queues := Deliver(h.queues, v))
  }

  ghost function HearAll(h: Host, frames: seq<Bytes>): Host {
    if frames == [] then h else Hear(HearAll(h, frames[..|frames| - 1]), frames[|frames| - 1])
  }

  /** The host sends a datagram (`udp_sendmsg`). */
  ghost function Send(h: Host, sport: uint16, daddr: uint32, dport: uint16, payload: Bytes): Host
    requires FitsDatagram(payload)
  {
    if dport == 0 || Lookup(h.local, h.main, daddr).None? then h
    else
      var id, src := OutputNeighbour(h.local, h.main, daddr), OutputSource(h.local, h.main, daddr, 0);
      h.(neigh := Submit(Create(h.neigh, id), id, UdpPacket(src, daddr, sport, dport, payload)))
  }

  /** A new socket gets a port (`udp_v4_get_port`). */
  ghost function BindSocket(h: Host, snum: uint16): Host {
    match PortFor(h.queues.Keys, snum)
    case None => h
    case Some(port) => h.(queues := h.queues[port := []])
  }

  // ---------- every run of a host is a run of the step system ----------

  datatype Stimulus =
    | Sending(sport: uint16, daddr: uint32, dport: uint16, payload: Bytes)
    | Hearing(frame: Bytes)
    | Binding(snum: uint16)

  ghost function React(h: Host, stim: Stimulus): Host
    requires stim.Sending? ==> FitsDatagram(stim.payload)
  {
    match stim
    case Sending(sport, daddr, dport, payload) => Send(h, sport, daddr, dport, payload)
    case Hearing(frame) => Hear(h, frame)
    case Binding(snum) => BindSocket(h, snum)
  }

  ghost predicate Sendable(stims: seq<Stimulus>) {
    forall i :: 0 <= i < |stims| && stims[i].Sending? ==> FitsDatagram(stims[i].payload)
  }

  ghost function HostRun(h: Host, stims: seq<Stimulus>): Host
    requires Sendable(stims)
  {
    if stims == [] then h else React(HostRun(h, stims[..|stims| - 1]), stims[|stims| - 1])
  }

  /** What a stimulus means for the neighbour table, if anything */
  ghost function EventsOf(h: Host, stim: Stimulus): seq<Event>
    requires stim.Sending? ==> FitsDatagram(stim.payload)
  {
    match stim
    case Binding(_) => []
    case Sending(sport, daddr, dport, payload) =>
      if dport == 0 || Lookup(h.local, h.main, daddr).None? then []
      else
        var src := OutputSource(h.local, h.main, daddr, 0);
        [Resolution.Output(OutputNeighbour(h.local, h.main, daddr), UdpPacket(src, daddr, sport, dport, payload))]
    case Hearing(frame) =>
      if |frame| < ETH_HLEN || HandlerFor(PTYPES, U16At(Read(frame), 12), h.dev) != Some(ArpHandler) then []
      else
        match ParseArp(EthBody(Read(frame)), Classify(EthDest(Read(frame)), h.dev))
        case None => []
        case Some(p) => [Arrive(h.dev, p)]
  }

  ghost function AllEvents(h: Host, stims: seq<Stimulus>): seq<Event>
    requires Sendable(stims)
  {
    if stims == [] then [] else AllEvents(h, stims[..|stims| - 1]) + EventsOf(h, stims[|stims| - 1])
  }

  ghost predicate SameHost(g: Host, h: Host) {
    g.dev == h.dev && g.local == h.local && g.main == h.main
  }

  lemma {:induction false} HostRunSame(h: Host, stims: seq<Stimulus>)
    requires Sendable(stims)
    ensures SameHost(HostRun(h, stims), h)
  {
    if stims != [] {
      HostRunSame(h, stims[..|stims| - 1]);
    }
  }

  lemma {:induction false} HostRunIsRun(h: Host, stims: seq<Stimulus>)
    requires Sendable(stims) && h.neigh == INIT
    ensures HostRun(h, stims).neigh == Run(LocalOf(h), AllEvents(h, stims))
  {
    hide React;
    hide EventsOf;
    hide Step;
    hide LocalOf;
    if stims != [] {
      var earlier, stim := stims[..|stims| - 1], stims[|stims| - 1];
      HostRunIsRun(h, earlier);
      HostRunSame(h, earlier);
      var g, evs := HostRun(h, earlier), AllEvents(h, earlier);
      OneStimulus(g, h, stim);
      if EventsOf(h, stim) == [] {
        assert AllEvents(h, stims) == evs;
      } else {
        assert AllEvents(h, stims)[..|evs|] == evs;
      }
    }
  }

  lemma OneStimulus(g: Host, h: Host, stim: Stimulus)
    requires SameHost(g, h) && (stim.Sending? ==> FitsDatagram(stim.payload))
    ensures |EventsOf(h, stim)| <= 1
    ensures var g' := React(g, stim);
            && SameHost(g', h)
            && g'.neigh == if EventsOf(h, stim) == [] then g.neigh else Step(LocalOf(h), g.neigh, EventsOf(h, stim)[0])
  {
    hide Submit;
    hide Create;
    hide ArpInput;
    hide ParseArp;
    hide UdpPacket;
    hide Lookup;
    hide FrameVerdict;
    assert LocalOf(g) == LocalOf(h);
  }

  /** Over every run of a host, from power-up: data frames and parked packets of a neighbour are, in order, the
      datagrams sent to it, and every data frame went to the address in the latest ARP packet accepted. */
  lemma HostConserves(h: Host, stims: seq<Stimulus>, id: Id)
    requires Sendable(stims) && h.neigh == INIT
    ensures var g := HostRun(h, stims);
            DataOf(g.neigh.log, id) + QueueOf(g.neigh, id) == Submitted(AllEvents(h, stims), id) && Safe(g.neigh.log)
  {
    HostRunIsRun(h, stims);
    Conservation(LocalOf(h), AllEvents(h, stims));
  }

  // ---------- what a host does with any frame, by its bytes ----------

  /** The ARP packet in such a frame */
  ghost function ArpIn(f: Bytes): ArpPacket
    requires |f| >= 42
  {
    ArpPacket(f[21], f[22..28], U32At(f, 28), f[32..38], U32At(f, 38))
  }

  /** What it does: a request for an address of this host makes the sender known and is answered; any other packet
      updates a sender that is known. */
  ghost function HeardArp(s: State, f: Bytes, dev: Device, local: iset<uint32>): State
    requires |f| >= 42
  {
    var p, sender := ArpIn(f), Id(U32At(f, 28), dev);
    if f[21] == 1 && U32At(f, 38) in local
    then Log(Learn(Create(s, sender), sender, p), SentArp(dev, f[22..28], ArpPacket(2, dev.devAddr, p.tip, f[22..28], p.sip)))
    else Learn(s, sender, p)
  }

  lemma ArpExactly(s: State, f: Bytes, dev: Device, local: iset<uint32>)
    requires |f| >= 14 && f[12] == 0x08 && f[13] == 0x06
    ensures AfterArp(s, dev, f[14..], Classify(f[..6], dev), local) ==
            if ArpForHost(f, dev) then HeardArp(s, f, dev, local) else s
  {
    hide Classify;
    hide ParseArp;
    hide Learn;
    hide Create;
    hide Word32;
    var body := f[14..];
    ArpAccepted(body, Classify(f[..6], dev));
    ClassifyExactly(f[..6], dev);
    if |f| >= 42 {
      assert f[12..21] == [0x08, 0x06] + body[..7] && f[12..21][2..] == body[..7];
      assert [0x08, 0x06] + [0, 1, 8, 0, 6, 4, 0] == [0x08, 0x06, 0, 1, 8, 0, 6, 4, 0];
      assert [0x08, 0x06, 0, 1, 8, 0, 6, 4, 0][2..] == [0, 1, 8, 0, 6, 4, 0];
      assert ArpForHost(f, dev) <==> ParseArp(body, Classify(f[..6], dev)).Some?;
      assert body[8..14] == f[22..28] && body[18..24] == f[32..38];
    }
  }

  /** The whole of reception. A frame of any bytes: a datagram for a port in use goes to that port's socket, with its
      sender and all that follows its header; an ARP packet that is well formed and not for another host acts on the
      neighbours; and any other frame, in particular any malformed one and any for another host, changes nothing. */
  lemma HearExactly(h: Host, frame: Bytes)
    ensures var f := Read(frame);
            Hear(h, frame) ==
            if ForPort(f, h.dev, LocalOf(h), [17], h.queues.Keys)
            then h.(queues := h.queues[PortIn(f) := h.queues[PortIn(f)] + [DatagramIn(f)]])
            else if ArpForHost(f, h.dev) then h.(neigh := HeardArp(h.neigh, f, h.dev, LocalOf(h)))
            else h
  {
    hide FrameVerdict;
    hide FrameEffect;
    hide LocalOf;
    hide AfterArp;
    hide Classify;
    hide WellFormedIp;
    hide HeardArp;
    hide Word16;
    var f := Read(frame);
    if |frame| >= 14 {
      VerdictExactly(h.neigh, frame, h.dev, LocalOf(h), [17], h.queues.Keys);
      ArpType(f, h.dev);
      if f[12] == 0x08 && f[13] == 0x06 {
        ArpExactly(h.neigh, f, h.dev, LocalOf(h));
      }
    }
  }

  lemma ArpType(f: Bytes, dev: Device)
    ensures ArpForHost(f, dev) ==> f[12] == 0x08 && f[13] == 0x06
  {
    if ArpForHost(f, dev) {
      assert f[12..21][0] == f[12] && f[12..21][1] == f[13];
    }
  }

  /** A frame for another host's device changes nothing, whatever it contains. */
  lemma HearOtherhost(h: Host, frame: Bytes)
    requires |frame| >= 14 && frame[0] % 2 == 0 && frame[..6] != h.dev.devAddr
    ensures Hear(h, frame) == h
  {
    hide Hear;
    hide LocalOf;
    hide WellFormedIp;
    HearExactly(h, frame);
    assert Read(frame)[..6] == frame[..6];
  }

  // ---------- one exchange between two hosts ----------

  /** An address that ARP will answer for: neither loopback nor multicast. */
  predicate Resolvable(a: uint32) {
    !IsLoopback(a) && !IsMulticast(a)
  }

  /** An ARP frame heard by a host, unless it is addressed to a third one */
  lemma HearArp(h: Host, dest: Mac, source: Mac, p: ArpPacket)
    requires Classify(dest, h.dev) != PacketOtherhost && (p.op == ARPOP_REQUEST || p.op == ARPOP_REPLY)
    ensures Hear(h, EthFrame(dest, source, ETH_P_ARP, ArpBytes(p))) ==
            h.(neigh := if Resolvable(p.tip) then ArpInput(h.neigh, h.dev, p, p.tip in LocalOf(h)) else h.neigh)
  {
    hide Classify;
    hide ArpInput;
    hide LocalOf;
    hide ArpBytes;
    hide ParseArp;
    hide IpVerdict;
    var f := EthFrame(dest, source, ETH_P_ARP, ArpBytes(p));
    EthRoundTrip(dest, source, ETH_P_ARP, ArpBytes(p));
    assert ArpBytes(p) + [] == ArpBytes(p);
    ArpRoundTrip(p, [], Classify(dest, h.dev));
    HandlerOfFrame(f, h.dev);
  }

  /** The frame in which a host asks for a neighbour, on behalf of the packet `first` */
  function RequestFrame(id: Id, first: Packet): Bytes {
    FrameOf(SentArp(id.dev, BROADCAST_ADDR, Request(id, first)))
  }

  /** What a host does with another's request, exactly: if the address asked for is its own and resolvable, it
      learns the sender and answers; else it answers nothing. */
  lemma HearRequest(h: Host, id: Id, first: Packet)
    ensures var p := Request(id, first);
            var sender := Id(p.sip, h.dev);
            Hear(h, RequestFrame(id, first)) ==
            if !Resolvable(id.addr) then h
            else if id.addr in LocalOf(h) then
              h.(neigh := Log(Learn(Create(h.neigh, sender), sender, p), SentArp(h.dev, id.dev.devAddr, Reply(h.dev, p))))
            else h.(neigh := Learn(h.neigh, sender, p))
  {
    hide Hear;
    hide Learn;
    hide Create;
    hide LocalOf;
    hide Resolvable;
    hide ArpBytes;
    BroadcastIsMulticast();
    HearArp(h, BROADCAST_ADDR, id.dev.devAddr, Request(id, first));
  }

  /** The frame that answers such a request */
  function Answer(dev: Device, id: Id, first: Packet): (r: Record)
    ensures r.SentArp? && r.arp.sha == dev.devAddr && r.arp.sip == id.addr
    ensures r.dest == r.arp.tha == id.dev.devAddr && r.arp.tip == IpSaddr(first)
  {
    SentArp(dev, id.dev.devAddr, Reply(dev, Request(id, first)))
  }

  /** Two-host resolution. Whatever their tables hold: if host `a` waits for the address `id.addr`, which is one of
      host `b`'s, then `b` answers the request and `a`, hearing the answer, holds `b`'s hardware address as
      reachable and has sent every waiting packet there, in order; `b` holds `a`'s as reachable. */
  lemma TwoHostResolution(a: Host, b: Host, id: Id)
    requires id.dev == a.dev && id in a.neigh.table && a.neigh.table[id].queue != []
    requires id.addr in LocalOf(b) && Resolvable(id.addr)
    requires Resolvable(IpSaddr(a.neigh.table[id].queue[0]))
    ensures var first := a.neigh.table[id].queue[0];
            var b1, sender := Hear(b, RequestFrame(id, first)), Id(IpSaddr(first), b.dev);
            var answer := Answer(b.dev, id, first);
            && b1.neigh.log != [] && b1.neigh.log[|b1.neigh.log| - 1] == answer
            && sender in b1.neigh.table && b1.neigh.table[sender] == Cell(NUD_REACHABLE, a.dev.devAddr, [])
            && Hear(a, FrameOf(answer)).neigh ==
               State(a.neigh.table[id := Cell(NUD_REACHABLE, b.dev.devAddr, [])],
                     Flush(a.neigh.log + [Accepted(id, answer.arp)], id, b.dev.devAddr, a.neigh.table[id].queue))
  {
    hide Hear;
    hide LocalOf;
    hide Flush;
    hide Resolvable;
    hide Classify;
    var first := a.neigh.table[id].queue[0];
    var p := Request(id, first);
    var reply := Reply(b.dev, p);
    HearRequest(b, id, first);
    OwnAddressHeard(a.dev);
    HearArp(a, a.dev.devAddr, b.dev.devAddr, reply);
  }

  lemma OwnAddressHeard(dev: Device)
    ensures Classify(dev.devAddr, dev) != PacketOtherhost
    ensures Classify(dev.devAddr, dev) == PacketHost <==> !IsMulticastEtherAddr(dev.devAddr)
  {
  }

  // ---------- datagrams ----------

  /** The frame in which a datagram travels, with whatever padding the link appends */
  ghost function DataFrame(dest: Mac, source: Mac, src: uint32, dst: uint32, sport: uint16, dport: uint16, payload: Bytes,
                           padding: Bytes): Bytes
    requires FitsDatagram(payload)
  {
    EthFrame(dest, source, ETH_P_IP, UdpPacket(src, dst, sport, dport, payload) + padding)
  }

  /** What `ether_rx` reads of a frame's body */
  ghost function Cut(body: Bytes): Bytes {
    if |body| <= ETH_DATA_LEN then body else body[..ETH_DATA_LEN]
  }

  lemma SeenFrame(dest: Mac, source: Mac, proto: uint16, body: Bytes)
    ensures Read(EthFrame(dest, source, proto, body)) == EthFrame(dest, source, proto, Cut(body))
  {
    hide Be16;
  }

  /** An IP frame as the handlers see it */
  lemma SeenIp(dest: Mac, source: Mac, body: Bytes, dev: Device)
    ensures var f := Read(EthFrame(dest, source, ETH_P_IP, body));
            && |f| >= ETH_HLEN && EthDest(f) == dest && EthBody(f) == Cut(body)
            && HandlerFor(PTYPES, U16At(f, 12), dev) == Some(IpHandler)
  {
    hide EthFrame;
    hide HandlerFor;
    SeenFrame(dest, source, ETH_P_IP, body);
    EthRoundTrip(dest, source, ETH_P_IP, Cut(body));
    HandlerOfFrame(EthFrame(dest, source, ETH_P_IP, Cut(body)), dev);
  }

  /** An IP frame, whatever it contains, changes neither the neighbour table nor the routes. */
  lemma HearIp(h: Host, dest: Mac, source: Mac, packet: Bytes)
    ensures var g := Hear(h, EthFrame(dest, source, ETH_P_IP, packet)); g.neigh == h.neigh && SameHost(g, h)
  {
    hide LocalOf;
    hide Classify;
    hide IpVerdict;
    hide EthFrame;
    hide Read;
    hide HandlerFor;
    SeenIp(dest, source, packet, h.dev);
  }

  lemma HearWholeDatagram(h: Host, source: Mac, src: uint32, dst: uint32, sport: uint16, dport: uint16, payload: Bytes,
                          padding: Bytes)
    requires FitsDatagram(payload) && dst in LocalOf(h) && !IsMulticastEtherAddr(h.dev.devAddr)
    requires Htons(dport) in h.queues && Htons(dport) < MAXUDPSOCKNUM && |payload| + |padding| <= 1472
    ensures var port := Htons(dport);
            Hear(h, DataFrame(h.dev.devAddr, source, src, dst, sport, dport, payload, padding)) ==
            h.(queues := h.queues[port := h.queues[port] + [Datagram(src, sport, payload + padding)]])
  {
    hide Classify;
    hide LocalOf;
    hide IpAcceptable;
    hide UdpPacket;
    hide Htons;
    hide EthFrame;
    hide Read;
    hide HandlerFor;
    var packet := UdpPacket(src, dst, sport, dport, payload);
    OwnAddressHeard(h.dev);
    UdpRoundTrip(src, dst, sport, dport, payload);
    IpPadded(packet, padding);
    SeenIp(h.dev.devAddr, source, packet + padding, h.dev);
    assert (IpBody(packet) + padding)[UDP_HLEN..] == payload + padding;
  }

  lemma HearTruncatedDatagram(h: Host, source: Mac, body: Bytes)
    requires |body| > ETH_DATA_LEN && Word16(body[3], body[2]) > ETH_DATA_LEN
    ensures Hear(h, EthFrame(h.dev.devAddr, source, ETH_P_IP, body)) == h
  {
    hide Classify;
    hide LocalOf;
    hide EthFrame;
    hide Read;
    hide HandlerFor;
    SeenIp(h.dev.devAddr, source, body, h.dev);
    assert !IpAcceptable(Cut(body));
  }

  /** What a socket gets of a datagram: the input path does not trim what it receives to the packet's length. */
  ghost function Carried(payload: Bytes, padding: Bytes): Bytes {
    if |payload + padding| <= 1472 then payload + padding else (payload + padding)[..1472]
  }

  /** A data frame reaching the host it is for: the datagram is delivered, sender intact, exactly if it fits a full
      Ethernet frame, that is, if the payload has at most 1472 bytes (the sender does not check). The payload is intact
      exactly if there is no padding, or no room for any. */
  lemma HearDatagram(h: Host, source: Mac, src: uint32, dst: uint32, sport: uint16, dport: uint16, payload: Bytes,
                     padding: Bytes)
    requires FitsDatagram(payload) && dst in LocalOf(h) && !IsMulticastEtherAddr(h.dev.devAddr)
    requires Htons(dport) in h.queues && Htons(dport) < MAXUDPSOCKNUM
    ensures var port := Htons(dport);
            Hear(h, DataFrame(h.dev.devAddr, source, src, dst, sport, dport, payload, padding)) ==
            if |payload| <= 1472
            then h.(queues := h.queues[port := h.queues[port] + [Datagram(src, sport, Carried(payload, padding))]])
            else h
    ensures |payload| <= 1472 ==> (Carried(payload, padding) == payload <==> padding == [] || |payload| == 1472)
  {
    hide UdpPacket;
    hide Hear;
    hide LocalOf;
    hide Htons;
    var packet := UdpPacket(src, dst, sport, dport, payload);
    if |payload| <= 1472 {
      var kept := if |payload + padding| <= 1472 then padding else padding[..1472 - |payload|];
      assert payload + kept == Carried(payload, padding);
      HearWholeDatagram(h, source, src, dst, sport, dport, payload, kept);
      assert Cut(packet + padding) == packet + kept;
      HearCut(h, source, packet + padding);
      assert Carried(payload, padding) == payload ==> |kept| == 0;
    } else {
      UdpRoundTrip(src, dst, sport, dport, payload);
      HearTruncatedDatagram(h, source, packet + padding);
    }
  }

  /** A frame and what `ether_rx` reads of it are heard alike. */
  lemma HearCut(h: Host, source: Mac, body: Bytes)
    ensures Hear(h, EthFrame(h.dev.devAddr, source, ETH_P_IP, body)) ==
            Hear(h, EthFrame(h.dev.devAddr, source, ETH_P_IP, Cut(body)))
  {
    hide FrameVerdict;
    hide FrameEffect;
    SeenFrame(h.dev.devAddr, source, ETH_P_IP, body);
    SeenAlike(h, EthFrame(h.dev.devAddr, source, ETH_P_IP, body));
  }

  lemma SeenAlike(h: Host, frame: Bytes)
    ensures Hear(h, frame) == Hear(h, Read(frame))
  {
    assert Read(Read(frame)) == Read(frame);
  }

  // ---------- from a cold start to delivery ----------

  ghost predicate AllFit(payloads: seq<Bytes>) {
    forall i :: 0 <= i < |payloads| ==> |payloads[i]| <= 1472
  }

  ghost function SendAll(h: Host, sport: uint16, daddr: uint32, dport: uint16, payloads: seq<Bytes>): Host
    requires AllFit(payloads)
  {
    if payloads == [] then h
    else Send(SendAll(h, sport, daddr, dport, payloads[..|payloads| - 1]), sport, daddr, dport, payloads[|payloads| - 1])
  }

  ghost function UdpPackets(src: uint32, dst: uint32, sport: uint16, dport: uint16, payloads: seq<Bytes>): (ps: seq<Packet>)
    requires AllFit(payloads)
    ensures |ps| == |payloads| && forall i :: 0 <= i < |ps| ==> IpSaddr(ps[i]) == src
  {
    if payloads == [] then []
    else
      var last := payloads[|payloads| - 1];
      UdpRoundTrip(src, dst, sport, dport, last);
      UdpPackets(src, dst, sport, dport, payloads[..|payloads| - 1]) + [UdpPacket(src, dst, sport, dport, last)]
  }

  ghost function Datagrams(src: uint32, sport: uint16, payloads: seq<Bytes>): seq<Datagram> {
    seq(|payloads|, i requires 0 <= i < |payloads| => Datagram(src, sport, payloads[i]))
  }

  /** The frames that carry packets to one hardware address */
  ghost function FramesTo(ha: Mac, source: Mac, packets: seq<Packet>): seq<Bytes> {
    if packets == [] then []
    else FramesTo(ha, source, packets[..|packets| - 1]) + [EthFrame(ha, source, ETH_P_IP, packets[|packets| - 1])]
  }

  /** The frames a host put on the wire between two states */
  ghost function NewFrames(before: Host, after: Host): seq<Bytes> {
    var old', new' := Wire(before.neigh.log), Wire(after.neigh.log);
    if |old'| <= |new'| then new'[|old'|..] else []
  }

  /** Datagrams to an unknown neighbour wait behind a single request. */
  lemma {:induction false} SendAllParks(h: Host, sport: uint16, daddr: uint32, dport: uint16, payloads: seq<Bytes>)
    requires AllFit(payloads) && payloads != [] && dport != 0 && Lookup(h.local, h.main, daddr).Some?
    requires OutputNeighbour(h.local, h.main, daddr) !in h.neigh.table
    ensures var id, src := OutputNeighbour(h.local, h.main, daddr), OutputSource(h.local, h.main, daddr, 0);
            var packets := UdpPackets(src, daddr, sport, dport, payloads);
            SendAll(h, sport, daddr, dport, payloads) ==
            h.(neigh := State(h.neigh.table[id := Cell(NUD_INCOMPLETE, ZERO_ADDR, packets)],
                              h.neigh.log + [SentArp(id.dev, BROADCAST_ADDR, Request(id, packets[0]))]))
  {
    hide Submit;
    hide Create;
    hide Request;
    hide OutputNeighbour;
    hide OutputSource;
    hide UdpPacket;
    hide Lookup;
    var id, src := OutputNeighbour(h.local, h.main, daddr), OutputSource(h.local, h.main, daddr, 0);
    var n := |payloads| - 1;
    var earlier, packet := payloads[..n], UdpPacket(src, daddr, sport, dport, payloads[n]);
    var parked := UdpPackets(src, daddr, sport, dport, earlier);
    if earlier == [] {
      assert SendAll(h, sport, daddr, dport, earlier) == h;
      assert parked + [packet] == [packet];
      ParkFirst(h.neigh, id, packet);
    } else {
      SendAllParks(h, sport, daddr, dport, earlier);
      ParkNext(h.neigh.table, h.neigh.log + [SentArp(id.dev, BROADCAST_ADDR, Request(id, parked[0]))], id, parked, packet);
    }
  }

  lemma {:induction false} WireOfFlush(log: seq<Record>, id: Id, ha: Mac, queue: seq<Packet>)
    ensures Wire(Flush(log, id, ha, queue)) == Wire(log) + FramesTo(ha, id.dev.devAddr, queue)
  {
    if queue != [] {
      var n := |queue| - 1;
      WireOfFlush(log, id, ha, queue[..n]);
      WireAppended(Flush(log, id, ha, queue[..n]), SentData(id, ha, queue[n]));
    }
  }

  /** The frames of a burst of datagrams are all delivered, in order. */
  lemma {:induction false} HearBurst(h: Host, source: Mac, src: uint32, dst: uint32, sport: uint16, dport: uint16,
                                     payloads: seq<Bytes>)
    requires AllFit(payloads) && dst in LocalOf(h) && !IsMulticastEtherAddr(h.dev.devAddr)
    requires Htons(dport) in h.queues && Htons(dport) < MAXUDPSOCKNUM
    ensures var frames := FramesTo(h.dev.devAddr, source, UdpPackets(src, dst, sport, dport, payloads));
            var port := Htons(dport);
            HearAll(h, frames) == h.(queues := h.queues[port := h.queues[port] + Datagrams(src, sport, payloads)])
  {
    hide Hear;
    hide UdpPacket;
    hide Htons;
    hide HearAll;
    hide FramesTo;
    hide UdpPackets;
    hide DataFrame;
    hide LocalOf;
    var port := Htons(dport);
    if payloads == [] {
      EmptyBurst(h, source, src, dst, sport, dport);
      assert h.queues[port] + Datagrams(src, sport, payloads) == h.queues[port];
      assert h.queues[port := h.queues[port]] == h.queues;
    } else {
      var n := |payloads| - 1;
      var earlier := payloads[..n];
      HearBurst(h, source, src, dst, sport, dport, earlier);
      var g := h.(queues := h.queues[port := h.queues[port] + Datagrams(src, sport, earlier)]);
      SameLocal(g, h);
      HearDatagram(g, source, src, dst, sport, dport, payloads[n], []);
      assert Carried(payloads[n], []) == payloads[n];
      var arrived := h.queues[port] + Datagrams(src, sport, payloads);
      assert g.queues[port] + [Datagram(src, sport, payloads[n])] == arrived;
      assert g.queues[port := arrived] == h.queues[port := arrived];
      BurstFrames(h.dev.devAddr, source, src, dst, sport, dport, payloads);
      HearAllThen(h, FramesTo(h.dev.devAddr, source, UdpPackets(src, dst, sport, dport, earlier)),
                  DataFrame(h.dev.devAddr, source, src, dst, sport, dport, payloads[n], []));
    }
  }

  lemma EmptyBurst(h: Host, source: Mac, src: uint32, dst: uint32, sport: uint16, dport: uint16)
    ensures HearAll(h, FramesTo(h.dev.devAddr, source, UdpPackets(src, dst, sport, dport, []))) == h
  {
  }

  lemma BurstFrames(dest: Mac, source: Mac, src: uint32, dst: uint32, sport: uint16, dport: uint16, payloads: seq<Bytes>)
    requires AllFit(payloads) && payloads != []
    ensures var n := |payloads| - 1;
            FramesTo(dest, source, UdpPackets(src, dst, sport, dport, payloads)) ==
            FramesTo(dest, source, UdpPackets(src, dst, sport, dport, payloads[..n])) +
            [DataFrame(dest, source, src, dst, sport, dport, payloads[n], [])]
  {
    hide UdpPacket;
    hide EthFrame;
    var n := |payloads| - 1;
    var packets := UdpPackets(src, dst, sport, dport, payloads);
    assert packets[..n] == UdpPackets(src, dst, sport, dport, payloads[..n]);
    assert packets[n] + [] == packets[n];
  }

  lemma HearAllThen(h: Host, frames: seq<Bytes>, frame: Bytes)
    ensures HearAll(h, frames + [frame]) == Hear(HearAll(h, frames), frame)
  {
    hide Hear;
    assert (frames + [frame])[..|frames|] == frames;
  }

  lemma SameLocal(g: Host, h: Host)
    requires SameHost(g, h)
    ensures LocalOf(g) == LocalOf(h)
  {
  }

  lemma HearOne(h: Host, frame: Bytes)
    ensures HearAll(h, [frame]) == Hear(h, frame)
  {
    assert [frame][..0] == [];
  }

  /** What a host puts on the wire when it is asked for: what it has parked for the asker itself, then the answer. */
  lemma AnswerFrames(h: Host, id: Id, first: Packet)
    requires id.addr in LocalOf(h) && Resolvable(id.addr)
    ensures var g := Hear(h, RequestFrame(id, first));
            var parked := QueueOf(h.neigh, Id(IpSaddr(first), h.dev));
            && NewFrames(h, g) == FramesTo(id.dev.devAddr, h.dev.devAddr, parked) + [FrameOf(Answer(h.dev, id, first))]
            && SameHost(g, h) && g.queues == h.queues
  {
    hide Hear;
    hide LocalOf;
    hide Resolvable;
    hide FrameOf;
    hide Wire;
    hide Flush;
    hide FramesTo;
    var p := Request(id, first);
    var sender := Id(p.sip, h.dev);
    var parked := QueueOf(h.neigh, sender);
    HearRequest(h, id, first);
    var accepted := h.neigh.log + [Accepted(sender, p)];
    WireAppended(h.neigh.log, Accepted(sender, p));
    WireOfFlush(accepted, sender, p.sha, parked);
    WireAppended(Flush(accepted, sender, p.sha, parked), Answer(h.dev, id, first));
  }

  /** Hearing such parked packets changes nothing but the sockets' queues. */
  lemma {:induction false} HearParked(h: Host, dest: Mac, source: Mac, packets: seq<Packet>)
    ensures var g := HearAll(h, FramesTo(dest, source, packets)); g.neigh == h.neigh && SameHost(g, h)
  {
    hide Hear;
    hide EthFrame;
    if packets != [] {
      var n := |packets| - 1;
      HearParked(h, dest, source, packets[..n]);
      var earlier := FramesTo(dest, source, packets[..n]);
      HearAllThen(h, earlier, EthFrame(dest, source, ETH_P_IP, packets[n]));
      HearIp(HearAll(h, earlier), dest, source, packets[n]);
    }
  }

  /** What the asker puts on the wire when it hears the answer: the waiting packets, in order. */
  lemma FlushedFrames(a: Host, b: Device, id: Id, first: Packet)
    requires id.dev == a.dev && id in a.neigh.table && Resolvable(IpSaddr(first))
    ensures var g := Hear(a, FrameOf(Answer(b, id, first)));
            && NewFrames(a, g) == FramesTo(b.devAddr, a.dev.devAddr, a.neigh.table[id].queue)
            && QueueOf(g.neigh, id) == []
  {
    hide Hear;
    hide LocalOf;
    hide Resolvable;
    hide Classify;
    hide Wire;
    hide Flush;
    hide FramesTo;
    var reply := Reply(b, Request(id, first));
    OwnAddressHeard(a.dev);
    HearArp(a, a.dev.devAddr, b.devAddr, reply);
    WireAppended(a.neigh.log, Accepted(id, reply));
    WireOfFlush(a.neigh.log + [Accepted(id, reply)], id, b.devAddr, a.neigh.table[id].queue);
  }

  /** From a cold start to delivery. Host `a` sends any number of datagrams to an address of host `b` that it has
      never heard of; then each host hears what the other has put on the wire since: the request; whatever `b` itself
      has parked for `a`, and the answer; the data. After this one exchange all the datagrams are on `b`'s socket, in order, with `a` as sender, and nothing
      is left waiting at `a`. */
  lemma ColdStartDelivery(a: Host, b: Host, sport: uint16, dst: uint32, dport: uint16, payloads: seq<Bytes>)
    requires AllFit(payloads) && payloads != [] && dport != 0
    requires Lookup(a.local, a.main, dst).Some? && OutputNeighbour(a.local, a.main, dst) == Id(dst, a.dev)
    requires Id(dst, a.dev) !in a.neigh.table
    requires dst in LocalOf(b) && Resolvable(dst) && Resolvable(OutputSource(a.local, a.main, dst, 0))
    requires !IsMulticastEtherAddr(b.dev.devAddr) && Htons(dport) in b.queues && Htons(dport) < MAXUDPSOCKNUM
    ensures var src, port := OutputSource(a.local, a.main, dst, 0), Htons(dport);
            var a1 := SendAll(a, sport, dst, dport, payloads);
            var b1 := HearAll(b, NewFrames(a, a1));
            var a2 := HearAll(a1, NewFrames(b, b1));
            var b2 := HearAll(b1, NewFrames(a1, a2));
            && b2.queues == b.queues[port := b.queues[port] + Datagrams(src, sport, payloads)]
            && QueueOf(a2.neigh, Id(dst, a.dev)) == []
  {
    hide Hear;
    hide HearAll;
    hide SendAll;
    hide LocalOf;
    hide Resolvable;
    hide FrameOf;
    hide FramesTo;
    hide UdpPackets;
    hide Htons;
    hide Lookup;
    hide Wire;
    var src, id := OutputSource(a.local, a.main, dst, 0), Id(dst, a.dev);
    var packets := UdpPackets(src, dst, sport, dport, payloads);
    var first := packets[0];
    var a1 := SendAll(a, sport, dst, dport, payloads);
    SendAllParks(a, sport, dst, dport, payloads);
    WireAppended(a.neigh.log, SentArp(id.dev, BROADCAST_ADDR, Request(id, first)));
    assert NewFrames(a, a1) == [RequestFrame(id, first)];
    HearOne(b, RequestFrame(id, first));
    var b1 := HearAll(b, NewFrames(a, a1));
    AnswerFrames(b, id, first);
    var parked := FramesTo(a.dev.devAddr, b.dev.devAddr, QueueOf(b.neigh, Id(src, b.dev)));
    HearParked(a1, a.dev.devAddr, b.dev.devAddr, QueueOf(b.neigh, Id(src, b.dev)));
    HearAllThen(a1, parked, FrameOf(Answer(b.dev, id, first)));
    FlushedFrames(HearAll(a1, parked), b.dev, id, first);
    SameLocal(b1, b);
    HearBurst(b1, a.dev.devAddr, src, dst, sport, dport, payloads);
  }

  /** A host that has just been switched on with one interface address */
  ghost predicate Configured(h: Host, ifa: Ifaddr) {
    && Consistent([ifa]) && ifa.dev == h.dev && h.neigh == INIT
    && h.local == LocalTable([ifa]) && h.main == MainTable([ifa])
  }

  /** Hence two freshly configured hosts can talk: all that delivery takes is that the receiver's address is on the
      sender's link and is not a network or broadcast address, and that ARP and IP input refuse neither host. */
  lemma SameLinkDelivery(a: Host, b: Host, x: Ifaddr, y: Ifaddr, sport: uint16, dport: uint16, payloads: seq<Bytes>)
    requires Configured(a, x) && Configured(b, y) && OnLink(x, y.address) && !IsBroadcastOf(y, y.address)
    requires Resolvable(x.address) && Resolvable(y.address) && !IsMulticastEtherAddr(b.dev.devAddr)
    requires AllFit(payloads) && payloads != [] && dport != 0
    requires Htons(dport) in b.queues && Htons(dport) < MAXUDPSOCKNUM
    ensures var port := Htons(dport);
            var a1 := SendAll(a, sport, y.address, dport, payloads);
            var b1 := HearAll(b, NewFrames(a, a1));
            var a2 := HearAll(a1, NewFrames(b, b1));
            var b2 := HearAll(b1, NewFrames(a1, a2));
            b2.queues == b.queues[port := b.queues[port] + Datagrams(x.address, sport, payloads)]
  {
    hide HearAll;
    hide SendAll;
    hide NewFrames;
    hide Resolvable;
    hide OnLink;
    hide IsBroadcastOf;
    hide Lookup;
    hide Htons;
    hide IsMulticastEtherAddr;
    hide Consistent;
    hide IsLocalAddr;
    OneInterface(x, y.address);
    RouteInputAccepts([y], y.address);
    assert [y][0].address == y.address;
    ColdStartDelivery(a, b, sport, y.address, dport, payloads);
  }

  // ---------- such hosts ----------

  const ADDR_A: uint32 := 0x0200_000a // 10.0.0.2
  const ADDR_B: uint32 := 0x0100_000a // 10.0.0.1

  ghost function ExampleAddr(address: uint32, index: byte): Ifaddr {
    Ifaddr(address, InetMakeMask(8), 8, Device(0, [0, 0x59, 0x55, 0x53, 0x54, index]))
  }

  /** A host with one interface on 10.0.0.0/8 and a socket on port 7 */
  ghost function ExampleHost(ifa: Ifaddr): Host {
    Host(ifa.dev, LocalTable([ifa]), MainTable([ifa]), INIT, map[7 := []])
  }

  lemma ExampleConfigured(address: uint32, index: byte)
    ensures var ifa := ExampleAddr(address, index);
            Configured(ExampleHost(ifa), ifa) && !IsMulticastEtherAddr(ifa.dev.devAddr) && ifa.address == address
  {
    hide LocalTable;
    hide MainTable;
    hide InetMakeMask;
    AndZero(1);
  }

  lemma ExampleOnLink()
    ensures OnLink(ExampleAddr(ADDR_A, 1), ADDR_B)
  {
    HtonlBytes(0x0a, 0, 0, 2);
    HtonlBytes(0x0a, 0, 0, 1);
    forall k | 24 <= k < 32 ensures AddrBit(ADDR_A, k) == AddrBit(ADDR_B, k) {
      HighBits(k);
    }
    SameLeadingBitsIff(ADDR_B, ADDR_A, 8);
  }

  lemma {:induction false} HighBits(k: nat)
    requires 2 <= k
    ensures ShiftRight(0x0a00_0002, k) == ShiftRight(0x0a00_0001, k)
  {
    assert ShiftRight(0x0a00_0002, k) == ShiftRight(0x0500_0001, k - 1) == ShiftRight(0x0280_0000, k - 2);
    assert ShiftRight(0x0a00_0001, k) == ShiftRight(0x0500_0000, k - 1) == ShiftRight(0x0280_0000, k - 2);
  }

  lemma ExampleNoBroadcast()
    ensures !IsBroadcastOf(ExampleAddr(ADDR_B, 2), ADDR_B)
  {
    HtonlBytes(0x0a, 0, 0, 1);
    assert AddrBit(ADDR_B, 0) == 1;
    assert ShiftRight(0x0a00_0001, 1) == ShiftRight(0x0500_0000, 0);
    assert AddrBit(ADDR_B, 1) == 0;
  }

  /** Delivery between two concrete hosts, 10.0.0.2 and 10.0.0.1 */
  lemma DeliveryExample(sport: uint16, payloads: seq<Bytes>)
    requires AllFit(payloads) && payloads != []
    ensures var a, b := ExampleHost(ExampleAddr(ADDR_A, 1)), ExampleHost(ExampleAddr(ADDR_B, 2));
            var a1 := SendAll(a, sport, ADDR_B, Htons(7), payloads);
            var b1 := HearAll(b, NewFrames(a, a1));
            var a2 := HearAll(a1, NewFrames(b, b1));
            var b2 := HearAll(b1, NewFrames(a1, a2));
            7 in b2.queues && b2.queues[7] == Datagrams(ADDR_A, sport, payloads)
  {
    hide HearAll;
    hide SendAll;
    hide NewFrames;
    hide OnLink;
    hide IsBroadcastOf;
    hide Resolvable;
    hide Configured;
    hide IsMulticastEtherAddr;
    hide ExampleAddr;
    hide Htons;
    hide LocalTable;
    hide MainTable;
    var x, y := ExampleAddr(ADDR_A, 1), ExampleAddr(ADDR_B, 2);
    ExampleConfigured(ADDR_A, 1);
    ExampleConfigured(ADDR_B, 2);
    ExampleOnLink();
    ExampleNoBroadcast();
    ExampleResolvable(ADDR_A);
    ExampleResolvable(ADDR_B);
    ExamplePort();
    assert [] + Datagrams(ADDR_A, sport, payloads) == Datagrams(ADDR_A, sport, payloads);
    SameLinkDelivery(ExampleHost(x), ExampleHost(y), x, y, sport, Htons(7), payloads);
  }

  lemma ExamplePort()
    ensures Htons(7) != 0 && Htons(Htons(7)) == 7
  {
    HtonsInvolutive(7);
  }

  lemma ExampleResolvable(a: uint32)
    requires a % 0x100 == 10
    ensures Resolvable(a)
  {
    hide IsLoopback;
    hide IsMulticast;
    LoopbackFirstByte(a);
    MulticastFirstByte(a);
  }
}

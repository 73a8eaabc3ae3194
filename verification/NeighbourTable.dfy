/** The neighbour table and ARP as the C code keeps them (core/neighbour.c, ipv4/arp.c): entries on a list,
    updated in place. Every method is proved to perform the operation of the same purpose in Resolution. */
module NeighbourTable {
  import opened Words
  import opened Wrappers
  import opened Ethernet
  import opened Fib
  import opened FibFrontend
  import opened Frames
  import opened Resolution
  import opened Skbuff
  import opened Memory
  import opened Link

  /** `struct neighbour`. The list `arp_queue` is a sequence here; Skbuff shows that the pointer queue acts as
      one. `output` is `neigh_resolve_output` in every entry of the table (`arp_constructor`). */
  class Neighbour {
    const id: Id
    var nudState: Nud
    var ha: Mac
    var arpQueue: seq<Skb>

    /** `neigh_alloc` and `arp_constructor` */
    constructor (id: Id)
      ensures this.id == id && nudState == NUD_NONE && ha == ZERO_ADDR && arpQueue == []
    {
      this.id := id;
      nudState, ha, arpQueue := NUD_NONE, ZERO_ADDR, [];
    }
  }

  /** `struct rtable` with its `dst_entry` */
  datatype Rtable = Rtable(dev: Device, rtype: byte, dst: uint32, src: uint32, gateway: uint32, neighbour: Neighbour?)

  /** `ip_route_input` (ipv4/route.c): a route for an address of this host, and for no other. */
  method IpRouteInput(fib: Tables, daddr: uint32, saddr: uint32, dev: Device) returns (rt: Option<Rtable>)
    requires fib.Valid()
    ensures rt.Some? <==> IsLocalAddr(fib.local.routes, fib.main.routes, daddr)
    ensures rt.Some? ==> rt.value == Rtable(dev, RTN_LOCAL, daddr, saddr, daddr, null)
  {
    var res := fib.FibLookup(daddr);
    if res.None? {
      return None;
    }
    if res.value.rtype == RTN_LOCAL {
      return Some(Rtable(dev, res.value.rtype, daddr, saddr, daddr, null));
    }
    return None;
  }

  /** A buffer on its way out, as it lies in memory while it is parked: the whole of its data, the offsets of `data` and
      `tail` in it, and its route. */
  datatype Skb = Skb(buf: Bytes, data: int, tail: int, protocol: uint16, dst: Option<Rtable>)

  /** The buffer holds an IP packet, with room for exactly the link header before it and none after it. */
  predicate HoldsPacket(skb: Skb) {
    skb.protocol == Htons(ETH_P_IP) && skb.data == ETH_HLEN && skb.data + IP_HLEN <= skb.tail == |skb.buf|
  }

  function PacketOf(skb: Skb): Packet
    requires HoldsPacket(skb)
  {
    skb.buf[skb.data..skb.tail]
  }

  predicate RoutedTo(skb: Skb, n: Neighbour) {
    HoldsPacket(skb) && skb.dst.Some? && skb.dst.value.neighbour == n
  }

  predicate AllRoutedTo(queue: seq<Skb>, n: Neighbour) {
    forall k :: 0 <= k < |queue| ==> RoutedTo(queue[k], n)
  }

  function Packets(queue: seq<Skb>, n: Neighbour): (ps: seq<Packet>)
    requires AllRoutedTo(queue, n)
    ensures |ps| == |queue| && forall k :: 0 <= k < |queue| ==> ps[k] == PacketOf(queue[k])
  {
    seq(|queue|, k requires 0 <= k < |queue| => PacketOf(queue[k]))
  }

  lemma PacketsSnoc(queue: seq<Skb>, skb: Skb, n: Neighbour)
    requires AllRoutedTo(queue, n) && RoutedTo(skb, n)
    ensures AllRoutedTo(queue + [skb], n) && Packets(queue + [skb], n) == Packets(queue, n) + [PacketOf(skb)]
  {
    hide PacketOf;
    hide HoldsPacket;
  }

  lemma PacketsTail(queue: seq<Skb>, n: Neighbour)
    requires queue != [] && AllRoutedTo(queue, n)
    ensures AllRoutedTo(queue[1..], n) && Packets(queue[1..], n) == Packets(queue, n)[1..]
    ensures RoutedTo(queue[0], n) && Packets(queue, n) != [] && Packets(queue, n)[0] == PacketOf(queue[0])
  {
    hide PacketOf;
    hide HoldsPacket;
  }

  /** The buffer that such an image stands for */
  method BufferOf(skb: Skb) returns (b: SkBuff)
    requires 0 <= skb.data <= skb.tail <= |skb.buf|
    ensures fresh(b) && fresh(b.buf) && b.Geometry()
    ensures b.buf[..] == skb.buf && b.data == skb.data && b.tail == skb.tail
  {
    b := new SkBuff(|skb.buf|);
    Memcpy(b.buf, 0, skb.buf);
    b.data, b.tail, b.len := skb.data, skb.tail, skb.tail - skb.data;
    b.protocol := skb.protocol;
  }

  /** Submitting to an unreachable neighbour, as the steps of `neigh_event_send`. */
  lemma SubmitUnreachable(s: State, id: Id, packet: Packet)
    requires id in s.table && s.table[id].state != NUD_REACHABLE
    ensures var c := s.table[id];
            var asked := Log(s, SentArp(id.dev, BROADCAST_ADDR, Request(id, packet)));
            var incomplete := c.(state := NUD_INCOMPLETE);
            var parked := incomplete.(queue := c.queue + [packet]);
            Submit(s, id, packet) ==
            if c.state == NUD_NONE then SetCell(SetCell(asked, id, incomplete), id, parked) else SetCell(s, id, parked)
  {
    var asked := Log(s, SentArp(id.dev, BROADCAST_ADDR, Request(id, packet)));
    var incomplete := s.table[id].(state := NUD_INCOMPLETE);
    SetCellTwice(asked, id, incomplete, incomplete.(queue := incomplete.queue + [packet]));
  }

  /** The checks of `arp_process` and the fields it extracts */
  method ArpCheck(body: Bytes) returns (p: Option<ArpPacket>)
    requires |body| >= ARP_LEN && body[4] == 6 && body[5] == 4
    ensures p == ParseArp(body, PacketHost)
  {
    hide IsLoopback;
    hide IsMulticast;
    hide Htons;
    HtonsBytes(body[2], body[3]);
    HtonsBytes(body[0], body[1]);
    HtonsBytes(body[6], body[7]);
    HtonsIff(U16At(body, 2), ETH_P_IP);
    HtonsIff(U16At(body, 0), ARPHRD_ETHER);
    if U16At(body, 2) != Htons(ETH_P_IP) || Htons(ARPHRD_ETHER) != U16At(body, 0) {
      return None;
    }
    var op := U16At(body, 6);
    HtonsIff(op, ARPOP_REPLY);
    HtonsIff(op, ARPOP_REQUEST);
    if op != Htons(ARPOP_REPLY) && op != Htons(ARPOP_REQUEST) {
      return None;
    }
    var sha, sip, tha, tip := body[8..14], U32At(body, 14), body[18..24], U32At(body, 24);
    if IsLoopback(tip) || IsMulticast(tip) {
      return None;
    }
    return Some(ArpPacket(Htons(op), sha, sip, tha, tip));
  }

  class ArpTable {
    /** `arp_tbl.buckets`, head first */
    var buckets: seq<Neighbour>
    /** the frames handed to `hard_start_xmit` */
    var wire: seq<Bytes>
    /** the entry of each neighbour */
    ghost var entries: map<Id, Neighbour>
    /** what the table and its history amount to */
    ghost var state: State

    ghost predicate Valid()
      reads this, buckets
    {
      && Linked()
      && entries.Keys == state.table.Keys
      && (forall id :: id in entries ==> Represents(entries[id], state.table[id]))
      && wire == Wire(state.log)
    }

    /** The list holds one entry for each neighbour. */
    ghost predicate Linked()
      reads this`buckets, this`entries
    {
      && (forall i, j :: 0 <= i < j < |buckets| ==> buckets[i] != buckets[j])
      && (forall n :: n in buckets ==> n.id in entries && entries[n.id] == n)
      && (forall id :: id in entries ==> entries[id] in buckets && entries[id].id == id)
    }

    static ghost predicate Represents(n: Neighbour, c: Cell)
      reads n
    {
      n.nudState == c.state && n.ha == c.ha && AllRoutedTo(n.arpQueue, n) && Packets(n.arpQueue, n) == c.queue
    }

    /** `arp_init`: an empty table */
    constructor ()
      ensures Valid() && buckets == [] && state == INIT
    {
      buckets, wire := [], [];
      entries, state := map[], INIT;
    }

    /** Appends to `arp_queue` (`skb_queue_tail`). */
    method QueueTail(n: Neighbour, skb: Skb)
      requires Valid() && n in buckets && RoutedTo(skb, n)
      modifies this`state, n`arpQueue
      ensures Valid()
      ensures var c := old(state).table[n.id];
              state == SetCell(old(state), n.id, c.(queue := c.queue + [PacketOf(skb)]))
    {
      hide Wire;
      PacketsSnoc(n.arpQueue, skb, n);
      n.arpQueue := n.arpQueue + [skb];
      ghost var c := state.table[n.id];
      state := SetCell(state, n.id, c.(queue := c.queue + [PacketOf(skb)]));
    }

    /** Takes the first buffer off `arp_queue` (`skb_dequeue`). */
    method Dequeue(n: Neighbour) returns (skb: Option<Skb>)
      requires Valid() && n in buckets
      modifies this`state, n`arpQueue
      ensures Valid()
      ensures var c := old(state).table[n.id];
              if c.queue == [] then skb.None? && state == old(state) && n.arpQueue == []
              else && skb.Some? && RoutedTo(skb.value, n) && PacketOf(skb.value) == c.queue[0]
                   && state == SetCell(old(state), n.id, c.(queue := c.queue[1..]))
    {
      hide Wire;
      if n.arpQueue == [] {
        return None;
      }
      PacketsTail(n.arpQueue, n);
      skb := Some(n.arpQueue[0]);
      n.arpQueue := n.arpQueue[1..];
      ghost var c := state.table[n.id];
      state := SetCell(state, n.id, c.(queue := c.queue[1..]));
    }

    /** Stores state and address. */
    method Set(n: Neighbour, nudState: Nud, ha: Mac)
      requires Valid() && n in buckets
      modifies this`state, n`nudState, n`ha
      ensures Valid() && n.nudState == nudState && n.ha == ha
      ensures state == SetCell(old(state), n.id, old(state).table[n.id].(state := nudState, ha := ha))
    {
      hide Wire;
      hide Packets;
      hide AllRoutedTo;
      n.nudState := nudState;
      n.ha := ha;
      ghost var before := state;
      state := SetCell(state, n.id, state.table[n.id].(state := nudState, ha := ha));
      forall id | id in entries ensures Represents(entries[id], state.table[id]) {
        assert old(Represents(entries[id], state.table[id]));
        assert id != n.id ==> state.table[id] == before.table[id];
      }
    }

    /** Takes note of an accepted ARP packet. */
    ghost method Accept(id: Id, p: ArpPacket)
      requires Valid()
      modifies this`state
      ensures Valid() && state == Log(old(state), Accepted(id, p))
    {
      WireAppended(state.log, Accepted(id, p));
      state := Log(state, Accepted(id, p));
    }

    /** Hands a buffer to the device (`dev_queue_xmit`, `ether_tx`): what it sends fills the buffer from end to end. */
    method Xmit(skb: SkBuff, ghost r: Record)
      requires Valid() && skb.Geometry() && skb.data == 0 && skb.tail == skb.buf.Length
      requires !r.Accepted? && skb.View() == FrameOf(r)
      modifies this`wire, this`state
      ensures Valid() && state == Log(old(state), r)
    {
      hide FrameOf;
      wire := wire + [skb.buf[..][skb.data..skb.data + skb.len]];
      WireAppended(state.log, r);
      state := Log(state, r);
    }

    // ---------- core/neighbour.c ----------

    /** `neigh_lookup`: the only entry for the key, if there is one. As no operation removes entries, a lookup
        that once succeeded gives the same entry ever after. */
    method NeighLookup(id: Id) returns (n: Neighbour?)
      requires Valid()
      ensures n == null <==> id !in state.table
      ensures n != null ==> n in buckets && n.id == id
      ensures forall m :: m in buckets && m.id == id ==> m == n
    {
      var i := 0;
      while i < |buckets|
        invariant i <= |buckets| && forall j :: 0 <= j < i ==> buckets[j].id != id
      {
        if buckets[i].id == id {
          return buckets[i];
        }
        i := i + 1;
      }
      return null;
    }

    static lemma NewEntry(n: Neighbour)
      requires n.nudState == NUD_NONE && n.ha == ZERO_ADDR && n.arpQueue == []
      ensures Represents(n, Cell(NUD_NONE, ZERO_ADDR, []))
    {
    }

    /** `neigh_create`: callers have looked the key up without success. */
    method NeighCreate(id: Id) returns (n: Neighbour)
      requires Valid() && id !in state.table
      modifies this
      ensures Valid() && fresh(n) && n.id == id && buckets == [n] + old(buckets)
      ensures state == Create(old(state), id)
    {
      hide Wire;
      hide ArpTable.Represents;
      n := new Neighbour(id);
      buckets := [n] + buckets;
      NewEntry(n);
      entries, state := entries[id := n], Create(state, id);
    }

    /** `__neigh_lookup_errno`, and `__neigh_lookup` with its flag */
    method NeighLookupCreat(id: Id, creat: bool) returns (n: Neighbour?)
      requires Valid()
      modifies this
      ensures Valid() && forall m :: m in buckets ==> m in old(buckets) || fresh(m)
      ensures forall m :: m in old(buckets) ==> m in buckets
      ensures state == if creat then Create(old(state), id) else old(state)
      ensures n == null <==> id !in state.table
      ensures n != null ==> n in buckets && n.id == id
    {
      n := NeighLookup(id);
      if n == null && creat {
        n := NeighCreate(id);
      }
    }

    /** `arp_solicit`: asks for the neighbour, from the source address of the waiting packet. */
    method ArpSolicit(n: Neighbour, skb: Skb)
      requires Valid() && HoldsPacket(skb)
      modifies this`wire, this`state
      ensures Valid()
      ensures state == Log(old(state), SentArp(n.id.dev, BROADCAST_ADDR, Request(n.id, PacketOf(skb))))
    {
      var dev := n.id.dev;
      var target, saddr := n.id.addr, IpSaddr(skb.buf[skb.data..skb.tail]);
      ArpSend(ARPOP_REQUEST, target, dev, saddr, None, dev.devAddr, None);
    }

    /** `neigh_event_send`: 0 if the packet can go, 1 if it was parked. */
    method NeighEventSend(n: Neighbour, skb: Skb) returns (parked: int)
      requires Valid() && n in buckets && RoutedTo(skb, n)
      modifies this`wire, this`state, n
      ensures Valid() && n.ha == old(n.ha)
      ensures parked == if old(n.nudState) == NUD_REACHABLE then 0 else 1
      ensures parked == 0 ==> state == old(state)
      ensures parked == 1 ==> state == Submit(old(state), n.id, PacketOf(skb))
    {
      if n.nudState == NUD_REACHABLE {
        return 0;
      }
      if n.nudState == NUD_NONE {
        ArpSolicit(n, skb);
        Set(n, NUD_INCOMPLETE, n.ha);
      }
      if n.nudState == NUD_INCOMPLETE {
        QueueTail(n, skb);
        SubmitUnreachable(old(state), n.id, PacketOf(skb));
        return 1;
      }
      return 0;
    }

    /** `neigh_resolve_output`: the output function of every neighbour. A buffer without a route or a
        neighbour is discarded. Any other has room for the link header, and is full once that is pushed. */
    method NeighResolveOutput(skb: Skb) returns (rc: int)
      requires Valid()
      requires skb.dst.Some? && skb.dst.value.neighbour != null ==>
                 skb.dst.value.neighbour in buckets && HoldsPacket(skb)
      modifies this`wire, this`state, if skb.dst.Some? then {skb.dst.value.neighbour} else {}
      ensures Valid()
      ensures rc == if skb.dst.None? || skb.dst.value.neighbour == null then -1 else 0
      ensures state == if rc == 0 then Submit(old(state), skb.dst.value.neighbour.id, PacketOf(skb)) else old(state)
    {
      hide Wire;
      hide PacketOf;
      hide HoldsPacket;
      if skb.dst.None? || skb.dst.value.neighbour == null {
        return -1;
      }
      var n := skb.dst.value.neighbour;
      var parked := NeighEventSend(n, skb);
      if parked == 0 {
        rc := SendTo(n, skb);
        return;
      }
      return 0;
    }

    /** The branch of `neigh_resolve_output` for a packet that can go */
    method SendTo(n: Neighbour, skb: Skb) returns (rc: int)
      requires Valid() && HoldsPacket(skb)
      modifies this`wire, this`state
      ensures Valid() && rc == 0 && state == Log(old(state), SentData(n.id, n.ha, PacketOf(skb)))
    {
      hide ArpTable.Valid;
      hide EthFrame;
      var b := BufferOf(skb);
      HtonsInvolutive(ETH_P_IP);
      var err := EthHeader(b, n.id.dev, Htons(skb.protocol), Some(n.ha), None);
      if err >= 0 {
        Xmit(b, SentData(n.id, n.ha, PacketOf(skb)));
        return 0;
      } else {
        assert false;
      }
    }

    /** The loop of `neigh_update`. It ends because a parked packet is routed to the neighbour it is parked
        on, whose output function does not park it again once the neighbour is reachable. */
    method FlushQueue(n: Neighbour, ghost s: State, ghost p: ArpPacket, ghost queue: seq<Packet>)
      requires Valid() && n in buckets && state == Flushing(s, n.id, p, queue, 0, 0)
      modifies this`wire, this`state, n
      ensures Valid() && n.arpQueue == []
      ensures state == Flushing(s, n.id, p, queue, |queue|, |queue|)
    {
      hide Wire;
      hide ArpTable.Represents;
      hide Submit;
      ghost var sent := 0;
      while true
        invariant Valid() && sent <= |queue| && state == Flushing(s, n.id, p, queue, sent, sent)
        decreases |queue| - sent
      {
        if sent < |queue| {
          FlushingDequeue(s, n.id, p, queue, sent);
        }
        var skb := Dequeue(n);
        if skb.None? {
          break;
        }
        FlushingSend(s, n.id, p, queue, sent);
        var _ := NeighResolveOutput(skb.value);
        sent := sent + 1;
      }
    }

    /** `neigh_update`: stores state and address, and flushes the queue if the neighbour is reachable now. Both callers
        pass `NUD_REACHABLE`. */
    method NeighUpdate(n: Neighbour, lladdr: Mac, new': Nud, ghost p: ArpPacket)
      requires Valid() && n in buckets && lladdr == p.sha
      modifies this`wire, this`state, n
      ensures Valid() && (new' == NUD_REACHABLE ==> n.arpQueue == [])
      ensures state == if new' == NUD_REACHABLE then Learn(old(state), n.id, p)
                       else SetCell(old(state), n.id, old(state).table[n.id].(state := new', ha := lladdr))
    {
      Set(n, new', lladdr);
      if n.nudState == NUD_REACHABLE {
        Accept(n.id, p);
        FlushingStarts(old(state), n.id, p);
        FlushQueue(n, old(state), p, old(state).table[n.id].queue);
        FlushingEnds(old(state), n.id, p);
      }
    }

    /** `neigh_event_ns` */
    method NeighEventNs(lladdr: Mac, id: Id, ghost p: ArpPacket) returns (n: Neighbour?)
      requires Valid() && lladdr == p.sha
      modifies this, buckets
      ensures Valid() && forall m :: m in buckets ==> m in old(buckets) || fresh(m)
      ensures forall m :: m in old(buckets) ==> m in buckets
      ensures n != null && state == Learn(Create(old(state), id), id, p)
    {
      n := NeighLookupCreat(id, true);
      if n != null {
        NeighUpdate(n, lladdr, NUD_REACHABLE, p);
      }
    }

    // ---------- ipv4/arp.c ----------

    /** `arp_send` */
    method ArpSend(op: uint16, destIp: uint32, dev: Device, srcIp: uint32, destHw: Option<Mac>, srcHw: Mac,
                   targetHw: Option<Mac>)
      requires Valid()
      modifies this`wire, this`state
      ensures Valid()
      ensures var dest := if destHw.None? then BROADCAST_ADDR else destHw.value;
              var target := if targetHw.None? then ZERO_ADDR else targetHw.value;
              state == Log(old(state), SentArp(dev, dest, ArpPacket(op, srcHw, srcIp, target, destIp)))
    {
      hide ArpTable.Valid;
      hide EthFrame;
      hide ArpBytes;
      ghost var dest := if destHw.None? then BROADCAST_ADDR else destHw.value;
      ghost var target := if targetHw.None? then ZERO_ADDR else targetHw.value;
      var skb := ArpCreate(op, destIp, dev, srcIp, destHw, Some(srcHw), targetHw);
      Xmit(skb, SentArp(dev, dest, ArpPacket(op, srcHw, srcIp, target, destIp)));
    }

    /** `arp_process`: frees the buffer at its end, whichever way it gets there. */
    method ArpProcess(skb: SkBuff, dev: Device, fib: Tables, ledger: Ledger) returns (ret: int)
      requires Valid() && fib.Valid() && skb.Geometry() && skb.nh == skb.data
      requires |skb.View()| >= ARP_LEN && skb.View()[4] == 6 && skb.View()[5] == 4
      modifies this, buckets, ledger`freed
      ensures Valid() && forall m :: m in buckets ==> m in old(buckets) || fresh(m)
      ensures forall m :: m in old(buckets) ==> m in buckets
      ensures ret == NET_RX_SUCCESS && ledger.freed == old(ledger.freed) + [skb]
      ensures state == match ParseArp(skb.View(), PacketHost)
                       case None => old(state)
                       case Some(p) => ArpInput(old(state), dev, p, IsLocalAddr(old(fib.local.routes), old(fib.main.routes), p.tip))
    {
      hide ArpTable.Valid;
      hide Tables.Valid;
      hide IsLocalAddr;
      hide ArpInput;
      hide ParseArp;
      var p := ArpCheck(skb.buf[..][skb.nh..skb.tail]);
      if p.Some? {
        ArpAct(p.value, dev, fib);
      }
      ledger.KfreeSkb(skb);
      return NET_RX_SUCCESS;
    }

    /** The rest of `arp_process`, once the fields are extracted */
    method ArpAct(p: ArpPacket, dev: Device, fib: Tables)
      requires Valid() && fib.Valid()
      modifies this, buckets
      ensures Valid() && forall m :: m in buckets ==> m in old(buckets) || fresh(m)
      ensures forall m :: m in old(buckets) ==> m in buckets
      ensures state == ArpInput(old(state), dev, p, IsLocalAddr(old(fib.local.routes), old(fib.main.routes), p.tip))
    {
      if p.op == ARPOP_REQUEST {
        var rt := IpRouteInput(fib, p.tip, p.sip, dev);
        if rt.Some? && rt.value.rtype == RTN_LOCAL {
          var n := NeighEventNs(p.sha, Id(p.sip, dev), p);
          if n != null {
            ArpSend(ARPOP_REPLY, p.sip, dev, p.tip, Some(p.sha), dev.devAddr, Some(p.sha));
          }
          return;
        }
      }
      var n := NeighLookupCreat(Id(p.sip, dev), false);
      if n != null {
        NeighUpdate(n, p.sha, NUD_REACHABLE, p);
      }
    }

    /** `arp_rcv`: takes every buffer it is given, whatever it holds. */
    method ArpRcv(skb: SkBuff, dev: Device, fib: Tables, ledger: Ledger) returns (ret: int)
      requires Valid() && fib.Valid() && skb.Geometry() && skb.nh == skb.data
      modifies this, buckets, ledger`freed
      ensures Valid() && forall m :: m in buckets ==> m in old(buckets) || fresh(m)
      ensures forall m :: m in old(buckets) ==> m in buckets
      ensures ret == NET_RX_SUCCESS && ledger.freed == old(ledger.freed) + [skb]
      ensures state == match ParseArp(skb.View(), skb.pktType)
                       case None => old(state)
                       case Some(p) => ArpInput(old(state), dev, p, IsLocalAddr(old(fib.local.routes), old(fib.main.routes), p.tip))
    {
      hide ArpTable.Valid;
      hide Tables.Valid;
      hide IsLocalAddr;
      hide ArpInput;
      hide IsLoopback;
      hide IsMulticast;
      if skb.len < ARP_LEN {
        ledger.KfreeSkb(skb);
        return NET_RX_SUCCESS;
      }
      var arp := skb.buf[..][skb.nh..skb.tail];
      if arp[4] != 6 || skb.pktType == PacketOtherhost || arp[5] != 4 {
        ledger.KfreeSkb(skb);
        return NET_RX_SUCCESS;
      }
      ret := ArpProcess(skb, dev, fib, ledger);
    }

    /** `arp_bind_neighbour`: gives a route its neighbour, creating the entry if there is none. */
    method ArpBindNeighbour(rt: Rtable) returns (bound: Rtable)
      requires Valid()
      requires rt.neighbour != null ==> rt.neighbour in buckets
      modifies this
      ensures Valid() && forall m :: m in buckets ==> m in old(buckets) || fresh(m)
      ensures forall m :: m in old(buckets) ==> m in buckets
      ensures bound.neighbour != null && bound.neighbour in buckets && bound == rt.(neighbour := bound.neighbour)
      ensures if rt.neighbour != null then bound == rt && state == old(state)
              else bound.neighbour.id == Id(rt.gateway, rt.dev) && state == Create(old(state), Id(rt.gateway, rt.dev))
    {
      if rt.neighbour != null {
        return rt;
      }
      var n := NeighLookupCreat(Id(rt.gateway, rt.dev), true);
      return rt.(neighbour := n);
    }
  }
}

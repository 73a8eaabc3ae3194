/** The UDP transmit path: how headers are written into buffers in place (ipv4/udp.c, ipv4/ip_output.c), proved against
    the packets of Frames. */
module Output {
  import opened Words
  import opened Wrappers
  import opened Ethernet
  import opened Checksum
  import opened Frames
  import opened FibFrontend
  import opened Resolution
  import opened NeighbourTable
  import opened Route
  import opened Skbuff
  import opened Sockets
  import opened Memory

  // ---------- the headers ----------

  /** The stores of `udp_push_pending_frames` into the UDP header, with the check field cleared */
  method WriteUdpHeader(buf: array<byte>, off: nat, sport: uint16, dport: uint16, len: uint16)
    requires off + UDP_HLEN <= buf.Length
    modifies buf
    ensures buf[..] == Written(old(buf[..]), off, UdpHeader(sport, dport, len, 0))
  {
    hide Written;
    hide Htons;
    ghost var s, f := buf[..], Le16(sport);
    Memcpy(buf, off, Le16(sport));
    StoreNext(buf, off + 2, Le16(dport), s, off, f);
    f := f + Le16(dport);
    NetworkOrder(len);
    StoreNext(buf, off + 4, Le16(Htons(len)), s, off, f);
    f := f + Be16(len);
    StoreNext(buf, off + 6, [0, 0], s, off, f);
    assert f + [0, 0] == UdpHeader(sport, dport, len, 0);
  }

  /** The stores of `ip_push_pending_frames` into the IP header, up to its check field */
  method WriteIpStart(buf: array<byte>, off: nat, totLen: uint16, proto: byte)
    requires off + IP_HLEN <= buf.Length
    modifies buf
    ensures buf[..] == Written(old(buf[..]), off, IpStart(totLen, proto))
  {
    hide Written;
    hide Htons;
    ghost var s, f := buf[..], [0x45, 0];
    var ihl, version, tos := 5, 4, 0;
    Memcpy(buf, off, [ihl + 0x10 * version, tos]);
    NetworkOrder(totLen);
    StoreNext(buf, off + 2, Le16(Htons(totLen)), s, off, f);
    f := f + Be16(totLen);
    StoreNext(buf, off + 4, [0, 0], s, off, f);
    f := f + [0, 0];
    StoreNext(buf, off + 6, [0x40, 0], s, off, f);
    f := f + [0x40, 0];
    StoreNext(buf, off + 8, [64, proto], s, off, f);
    assert f + [64, proto] == IpStart(totLen, proto);
  }

  /** The stores into the whole header, with the check field cleared */
  method WriteIpHeader(buf: array<byte>, off: nat, totLen: uint16, proto: byte, src: uint32, dst: uint32)
    requires off + IP_HLEN <= buf.Length
    modifies buf
    ensures buf[..] == Written(old(buf[..]), off, IpHeader(totLen, proto, 0, src, dst))
  {
    hide Written;
    hide Le16;
    hide Le32;
    hide IpStart;
    ghost var s, f := buf[..], IpStart(totLen, proto);
    WriteIpStart(buf, off, totLen, proto);
    StoreNext(buf, off + 10, Le16(0), s, off, f);
    StoreNext(buf, off + 12, Le32(src), s, off, f + Le16(0));
    StoreNext(buf, off + 16, Le32(dst), s, off, f + Le16(0) + Le32(src));
  }

  // ---------- the UDP transmit path ----------

  /** The buffer of `ip_append_data`: exact room for the link, IP and transport headers before the payload, positioned at
      the payload */
  method PayloadBuffer(payload: Bytes, transhdrlen: nat, hhLen: nat) returns (skb: SkBuff)
    ensures fresh(skb) && fresh(skb.buf)
    ensures skb.Geometry() && skb.buf.Length == skb.tail == hhLen + IP_HLEN + transhdrlen + |payload|
    ensures skb.nh == hhLen && skb.h == hhLen + IP_HLEN && skb.data == hhLen + IP_HLEN + transhdrlen
    ensures skb.View() == payload
  {
    var fragheaderlen := IP_HLEN;
    var datalen := transhdrlen + |payload|;
    var fraglen := datalen + fragheaderlen;
    skb := new SkBuff(fraglen + hhLen);
    skb.Reserve(hhLen);
    var data := skb.Put(fraglen);
    skb.nh := data.value;
    var _ := skb.Pull(fragheaderlen);
    skb.h := data.value + fragheaderlen;
    var _ := skb.Pull(transhdrlen);
    var copy := datalen - transhdrlen;
    if copy > 0 {
      Memcpy(skb.buf, skb.h + transhdrlen, payload);
    }
  }

  /** `ip_append_data`: the buffer goes on the write queue. */
  method IpAppendData(queue: SkBuffHead, payload: Bytes, transhdrlen: nat, hhLen: nat) returns (skb: SkBuff)
    requires queue.Valid()
    modifies queue, queue.list`prev, queue.Last()`next
    ensures queue.Valid() && fresh(skb) && fresh(skb.buf) && queue.contents == old(queue.contents) + [skb]
    ensures skb.Geometry() && skb.buf.Length == skb.tail == hhLen + IP_HLEN + transhdrlen + |payload|
    ensures skb.nh == hhLen && skb.h == hhLen + IP_HLEN && skb.data == hhLen + IP_HLEN + transhdrlen
    ensures skb.View() == payload
  {
    hide SkBuffHead.Valid;
    skb := PayloadBuffer(payload, transhdrlen, hhLen);
    queue.QueueTail(skb);
  }

  /** The checksum of a segment under the pseudo-header, as `udp_push_pending_frames` computes it */
  method UdpChecksum(saddr: uint32, daddr: uint32, len: uint16, proto: byte, segment: Bytes) returns (check: uint16)
    requires |segment| < 0x1_0000
    ensures check == InternetChecksum(PseudoHeader(saddr, daddr, len, proto as int) + segment)
  {
    var csum := Checksum.Checksum(segment);
    SumBound(segment);
    check := CsumTcpudpMagic(saddr, daddr, len, proto, csum);
    PseudoHeaderExact(saddr, daddr, len, proto, segment);
  }

  /** `udp_push_pending_frames`, up to the hand-over to the IP layer: the transport header is completed in the
      buffer, checksum included. */
  method UdpFillHeader(skb: SkBuff, sk: Sock, ghost payload: Bytes)
    requires UDP_HLEN + |payload| == sk.ulen && sk.protocol == IPPROTO_UDP
    requires skb.Geometry() && 0 <= skb.h && skb.data == skb.h + UDP_HLEN && skb.tail == skb.buf.Length
    requires skb.View() == payload
    modifies skb.buf
    ensures skb.buf[..][skb.h..] == UdpSegment(sk.saddr, sk.daddr, sk.sport, sk.dport, payload)
  {
    var buf, off := skb.buf, skb.h;
    ghost var before, blank := buf[..], UdpHeader(sk.sport, sk.dport, sk.ulen, 0);
    assert before[off + UDP_HLEN..] == payload;
    WriteUdpHeader(buf, off, sk.sport, sk.dport, sk.ulen);
    WrittenFrom(before, off, blank);
    var check := UdpChecksum(sk.saddr, sk.daddr, Htons(sk.ulen), sk.protocol, buf[..][off..]);
    ghost var middle := buf[..];
    StoreWord(buf, off + 6, check);
    WrittenSlice(middle, off, 6, Le16(check));
    UdpCheckStored(sk.sport, sk.dport, sk.ulen, check, payload);
  }

  lemma UdpCheckStored(sport: uint16, dport: uint16, len: uint16, check: uint16, payload: Bytes)
    ensures Written(UdpHeader(sport, dport, len, 0) + payload, 6, Le16(check)) ==
            UdpHeader(sport, dport, len, check) + payload
  {
    var blank, full := UdpHeader(sport, dport, len, 0), UdpHeader(sport, dport, len, check);
    assert blank[..6] == full[..6] && Le16(check) == full[6..8];
    assert Written(blank + payload, 6, Le16(check)) == blank[..6] + Le16(check) + payload;
  }

  /** `ip_push_pending_frames`, up to the hand-over to the neighbour: the buffer is moved back to its network
      header and the IP header completed in place. */
  method IpFillHeader(skb: SkBuff, proto: byte, src: uint32, dst: uint32, ghost body: Bytes)
    requires skb.Geometry() && 0 <= skb.nh && skb.nh + IP_HLEN <= skb.data && skb.tail == skb.buf.Length
    requires skb.buf[..][skb.nh + IP_HLEN..] == body && IP_HLEN + |body| < 0x1_0000
    modifies skb`data, skb`len, skb.buf
    ensures skb.Geometry() && skb.data == skb.nh
    ensures skb.View() == IpPacket(proto, src, dst, body)
  {
    hide IpPacket;
    if skb.nh < skb.data {
      var _ := skb.Push(skb.data - skb.nh);
    }
    IpWriteHeader(skb.buf, skb.data, skb.len, proto, src, dst, body);
    assert skb.View() == skb.buf[..][skb.data..];
  }

  method IpWriteHeader(buf: array<byte>, off: nat, len: uint16, proto: byte, src: uint32, dst: uint32, ghost body: Bytes)
    requires off + IP_HLEN <= buf.Length && buf[..][off + IP_HLEN..] == body && len == IP_HLEN + |body|
    modifies buf
    ensures buf[..][off..] == IpPacket(proto, src, dst, body)
  {
    ghost var before, blank := buf[..], IpHeader(len, proto, 0, src, dst);
    WriteIpHeader(buf, off, len, proto, src, dst);
    WrittenFrom(before, off, blank);
    IpFillCheck(buf, off, blank, body);
    IpCheckStored(len, proto, InternetChecksum(blank), src, dst, body);
  }

  /** Computes the checksum of the header at `off` and stores it there. */
  method IpFillCheck(buf: array<byte>, off: nat, ghost blank: Bytes, ghost body: Bytes)
    requires off + IP_HLEN <= buf.Length && |blank| == IP_HLEN && buf[..][off..] == blank + body
    modifies buf
    ensures buf[..][off..] == Written(blank + body, 10, Le16(InternetChecksum(blank)))
  {
    assert buf[..][off..][..IP_HLEN] == blank;
    var check := Checksum.Checksum(buf[..][off..][..IP_HLEN]);
    SumBound(blank);
    ghost var before := buf[..];
    StoreWord(buf, off + 10, check);
    WrittenSlice(before, off, 10, Le16(check));
  }

  lemma IpCheckStored(totLen: uint16, proto: byte, check: uint16, src: uint32, dst: uint32, body: Bytes)
    ensures Written(IpHeader(totLen, proto, 0, src, dst) + body, 10, Le16(check)) ==
            IpHeader(totLen, proto, check, src, dst) + body
  {
    hide Le16;
    hide Le32;
    hide IpStart;
    var start, rest := IpStart(totLen, proto), Le32(src) + Le32(dst) + body;
    assert IpHeader(totLen, proto, 0, src, dst) + body == start + Le16(0) + rest;
    assert IpHeader(totLen, proto, check, src, dst) + body == start + Le16(check) + rest;
    Replace(start, Le16(0), Le16(check), rest);
  }

  /** `udp_push_pending_frames` and `ip_push_pending_frames`: completes the first buffer of the write queue and
      takes it off. What is left for the neighbour is the IP packet with room for exactly the link header. */
  method PushPendingFrames(sk: Sock, rt: Rtable, ghost payload: Bytes) returns (skb: SkBuff)
    requires sk.writeQueue.Valid() && |sk.writeQueue.contents| == 1 && sk.protocol == IPPROTO_UDP
    requires FitsDatagram(payload) && sk.ulen == UDP_HLEN + |payload|
    requires var b := sk.writeQueue.contents[0];
             && b.Geometry() && b.nh == ETH_HLEN && b.h == ETH_HLEN + IP_HLEN && b.data == b.h + UDP_HLEN
             && b.tail == b.buf.Length && b.View() == payload
    modifies sk.writeQueue, sk.writeQueue.list`next, sk.writeQueue.list`prev
    modifies sk.writeQueue.contents[0], sk.writeQueue.contents[0].buf
    ensures sk.writeQueue.Valid() && sk.writeQueue.contents == [] && skb == old(sk.writeQueue.contents)[0]
    ensures skb.Geometry() && skb.data == ETH_HLEN && skb.tail == skb.buf.Length
    ensures skb.View() == IpPacket(IPPROTO_UDP, rt.src, rt.dst, UdpSegment(sk.saddr, sk.daddr, sk.sport, sk.dport, payload))
  {
    hide IpPacket;
    hide UdpSegment;
    var head := sk.writeQueue.Peek();
    UdpFillHeader(head, sk, payload);
    skb := sk.writeQueue.Dequeue();
    IpFillHeader(skb, sk.protocol, rt.src, rt.dst, UdpSegment(sk.saddr, sk.daddr, sk.sport, sk.dport, payload));
  }

  /** The middle of `udp_sendmsg`, between the routing decision and the output to the neighbour */
  method UdpBuild(sk: Sock, rt: Rtable, dport: uint16, payload: Bytes) returns (skb: SkBuff)
    requires sk.Valid() && FitsDatagram(payload)
    modifies sk`ulen, sk`daddr, sk`saddr, sk`dport, sk.writeQueue, sk.writeQueue.list`next, sk.writeQueue.list`prev
    ensures sk.Valid() && sk.sport == old(sk.sport) && fresh(skb) && fresh(skb.buf)
    ensures skb.Geometry() && skb.data == ETH_HLEN && skb.tail == skb.buf.Length
    ensures skb.View() == UdpPacket(rt.src, rt.dst, sk.sport, dport, payload)
  {
    hide IpPacket;
    hide UdpSegment;
    sk.ulen := UDP_HLEN + |payload|;
    var _ := IpAppendData(sk.writeQueue, payload, UDP_HLEN, ETH_HLEN);
    sk.daddr, sk.saddr, sk.dport := rt.dst, rt.src, dport;
    skb := PushPendingFrames(sk, rt, payload);
  }

  /** `udp_sendmsg`: fails for port 0 and for a destination without a route. Otherwise the datagram is submitted
      to the destination's neighbour, from the route's preferred source address and the socket's port. */
  method UdpSendmsg(sk: Sock, fib: Tables, arp: ArpTable, daddr: uint32, dport: uint16, payload: Bytes)
    returns (err: int)
    requires sk.Valid() && fib.Valid() && arp.Valid() && FitsDatagram(payload)
    modifies sk`ulen, sk`daddr, sk`saddr, sk`dport, sk.writeQueue, sk.writeQueue.list`next, sk.writeQueue.list`prev
    modifies arp, arp.buckets
    ensures sk.Valid() && arp.Valid() && sk.sport == old(sk.sport)
    ensures forall m :: m in old(arp.buckets) ==> m in arp.buckets
    ensures forall m :: m in arp.buckets ==> m in old(arp.buckets) || fresh(m)
    ensures err == if dport == 0 || Lookup(old(fib.local.routes), old(fib.main.routes), daddr).None? then -1 else 0
    ensures err == -1 ==> arp.state == old(arp.state)
    ensures err == 0 ==>
              var id := OutputNeighbour(old(fib.local.routes), old(fib.main.routes), daddr);
              var src := OutputSource(old(fib.local.routes), old(fib.main.routes), daddr, 0);
              arp.state == Submit(Create(old(arp.state), id), id, UdpPacket(src, daddr, sk.sport, dport, payload))
  {
    hide UdpPacket;
    hide Submit;
    hide Create;
    hide ArpTable.Valid;
    hide Tables.Valid;
    hide SkBuffHead.Valid;
    if dport == 0 {
      return -1;
    }
    var route := IpRouteOutput(fib, arp, daddr, 0);
    if route.None? {
      return -1;
    }
    var rt := route.value;
    var skb := UdpBuild(sk, rt, dport, payload);
    skb.protocol := Htons(ETH_P_IP);
    var rc := arp.NeighResolveOutput(Skb(skb.buf[..], skb.data, skb.tail, skb.protocol, Some(rt)));
    return 0;
  }
}

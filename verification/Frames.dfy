/** The bytes that go over the wire, what the receive paths read out of them, and that the two agree
    (ipv4/arp.c, ipv4/ip_output.c, ipv4/udp.c, ipv4/ip_input.c, driver/ethernet.c).

    Addresses and ports are the words the stack holds, so they lie in memory as they go over the wire. */
module Frames {
  import opened Words
  import opened Bits
  import opened Wrappers
  import opened Ethernet
  import opened Checksum

  const ARPOP_REQUEST: uint16 := 1
  const ARPOP_REPLY: uint16 := 2
  const ARPHRD_ETHER: uint16 := 1
  const ARP_LEN: nat := 28
  const IP_HLEN: nat := 20
  const UDP_HLEN: nat := 8
  const IPPROTO_UDP: byte := 17

  // ---------- Ethernet ----------

  /** A frame as `eth_header` completes it. */
  function EthFrame(dest: Mac, source: Mac, proto: uint16, body: Bytes): (f: Bytes)
    ensures |f| == ETH_HLEN + |body|
  {
    dest + source + Be16(proto) + body
  }

  function EthDest(f: Bytes): Mac
    requires |f| >= ETH_HLEN
  {
    f[..6]
  }

  function EthSource(f: Bytes): Mac
    requires |f| >= ETH_HLEN
  {
    f[6..12]
  }

  /** The protocol field as a host-order number. */
  function EthProto(f: Bytes): uint16
    requires |f| >= ETH_HLEN
  {
    Htons(U16At(f, 12))
  }

  function EthBody(f: Bytes): Bytes
    requires |f| >= ETH_HLEN
  {
    f[ETH_HLEN..]
  }

  lemma EthRoundTrip(dest: Mac, source: Mac, proto: uint16, body: Bytes)
    ensures var f := EthFrame(dest, source, proto, body);
            EthDest(f) == dest && EthSource(f) == source && EthProto(f) == proto && EthBody(f) == body
  {
    hide Be16;
    hide Htons;
    var f := EthFrame(dest, source, proto, body);
    assert f[..6] == dest && f[6..12] == source && f[14..] == body;
    assert f[12] == Be16(proto)[0] && f[13] == Be16(proto)[1];
    SwappedBack(proto);
  }

  lemma SwappedBack(x: uint16)
    ensures Htons(Word16(Be16(x)[0], Be16(x)[1])) == x
  {
    BytesOfWord16(Be16(x)[0], Be16(x)[1]);
  }

  // ---------- ARP ----------

  datatype ArpPacket = ArpPacket(op: uint16, sha: Mac, sip: uint32, tha: Mac, tip: uint32)

  /** The body that `arp_create` writes. */
  function ArpBytes(p: ArpPacket): (s: Bytes)
    ensures |s| == ARP_LEN
  {
    [0, 1, 0x08, 0x00, 6, 4, p.op / 0x100, p.op % 0x100] + p.sha + Le32(p.sip) + p.tha + Le32(p.tip)
  }

  /** `LOOPBACK`: the network 127.0.0.0/8 */
  predicate IsLoopback(a: uint32) {
    Bitwise32(And, a, Htonl(0xff00_0000)) == Htonl(0x7f00_0000)
  }

  /** `MULTICAST`: the network 224.0.0.0/4 */
  predicate IsMulticast(a: uint32) {
    Bitwise32(And, a, Htonl(0xf000_0000)) == Htonl(0xe000_0000)
  }

  /** The fields `arp_process` extracts. */
  function ArpFields(body: Bytes): ArpPacket
    requires |body| >= ARP_LEN
  {
    ArpPacket(Word16(body[7], body[6]), body[8..14], U32At(body, 14), body[18..24], U32At(body, 24))
  }

  /** The checks of `arp_rcv` and `arp_process` up to the decision what to do with the packet. */
  function ParseArp(body: Bytes, pktType: PktType): Option<ArpPacket> {
    if |body| < ARP_LEN then None
    else if body[4] != 6 || pktType == PacketOtherhost || body[5] != 4 then None
    else if Word16(body[3], body[2]) != ETH_P_IP || Word16(body[1], body[0]) != ARPHRD_ETHER then None
    else if ArpFields(body).op != ARPOP_REPLY && ArpFields(body).op != ARPOP_REQUEST then None
    else if IsLoopback(ArpFields(body).tip) || IsMulticast(ArpFields(body).tip) then None
    else Some(ArpFields(body))
  }

  lemma ArpSlices(h: Bytes, sha: Bytes, sip: Bytes, tha: Bytes, tip: Bytes, padding: Bytes)
    requires |h| == 8 && |sha| == 6 && |sip| == 4 && |tha| == 6 && |tip| == 4
    ensures var b := h + sha + sip + tha + tip + padding;
            && b[..8] == h && b[8..14] == sha && b[14..18] == sip && b[18..24] == tha && b[24..28] == tip
  {
  }

  lemma ArpFieldsOfBytes(p: ArpPacket, padding: Bytes)
    ensures ArpFields(ArpBytes(p) + padding) == p
  {
    var b := ArpBytes(p) + padding;
    var h := [0, 1, 0x08, 0x00, 6, 4, p.op / 0x100, p.op % 0x100];
    ArpSlices(h, p.sha, Le32(p.sip), p.tha, Le32(p.tip), padding);
    U32AtSlice(b, 14, p.sip);
    U32AtSlice(b, 24, p.tip);
    assert b[6] == h[6] && b[7] == h[7];
  }

  /** What one stack writes another reads back, whatever padding the link appends. */
  lemma ArpRoundTrip(p: ArpPacket, padding: Bytes, pktType: PktType)
    ensures ParseArp(ArpBytes(p) + padding, pktType) ==
            if pktType != PacketOtherhost && (p.op == ARPOP_REQUEST || p.op == ARPOP_REPLY)
               && !IsLoopback(p.tip) && !IsMulticast(p.tip)
            then Some(p) else None
  {
    ArpFieldsOfBytes(p, padding);
  }

  lemma TargetByte(body: Bytes)
    requires |body| >= ARP_LEN
    ensures var tip := U32At(body, 24);
            && (IsLoopback(tip) <==> body[24] == 127) && (IsMulticast(tip) <==> 224 <= body[24] < 240)
  {
    hide IsLoopback;
    hide IsMulticast;
    RefusedAddresses(U32At(body, 24));
    Le32OfU32At(body, 24);
  }

  /** Which bodies are accepted, and how they are read, by their bytes: Ethernet and IP, addresses of six and four bytes, a
      request or a reply, for a target that is neither loopback nor multicast */
  lemma ArpAccepted(body: Bytes, pktType: PktType)
    ensures ParseArp(body, pktType).Some? <==>
            && pktType != PacketOtherhost && |body| >= 28 && body[..7] == [0, 1, 8, 0, 6, 4, 0]
            && (body[7] == 1 || body[7] == 2) && body[24] != 127 && !(224 <= body[24] < 240)
    ensures ParseArp(body, pktType).Some? ==>
              ParseArp(body, pktType).value == ArpPacket(body[7], body[8..14], U32At(body, 14), body[18..24], U32At(body, 24))
  {
    hide IsLoopback;
    hide IsMulticast;
    hide Word32;
    if |body| >= ARP_LEN {
      TargetByte(body);
      Word16Same(body[3], body[2], 0, 8);
      Word16Same(body[1], body[0], 1, 0);
      Word16Same(body[7], body[6], 1, 0);
      Word16Same(body[7], body[6], 2, 0);
      ArpPrefix(body);
    }
  }

  lemma ArpPrefix(body: Bytes)
    requires |body| >= 7
    ensures body[..7] == [0, 1, 8, 0, 6, 4, 0] <==>
            && body[0] == 0 && body[1] == 1 && body[2] == 8 && body[3] == 0 && body[4] == 6 && body[5] == 4 && body[6] == 0
  {
    assert body[..7] == [body[0], body[1], body[2], body[3], body[4], body[5], body[6]];
  }

  // ---------- IP ----------

  /** The header `ip_push_pending_frames` writes, up to its check field */
  function IpStart(totLen: uint16, proto: byte): (s: Bytes)
    ensures |s| == 10
  {
    [0x45, 0, totLen / 0x100, totLen % 0x100, 0, 0, 0x40, 0, 64, proto]
  }

  /** The whole header, with a given check field */
  function IpHeader(totLen: uint16, proto: byte, check: uint16, src: uint32, dst: uint32): (s: Bytes)
    ensures |s| == IP_HLEN
  {
    IpStart(totLen, proto) + Le16(check) + Le32(src) + Le32(dst)
  }

  ghost function IpPacket(proto: byte, src: uint32, dst: uint32, body: Bytes): (s: Bytes)
    requires IP_HLEN + |body| < 0x1_0000
    ensures |s| == IP_HLEN + |body|
  {
    var len := IP_HLEN + |body|;
    IpHeader(len, proto, InternetChecksum(IpHeader(len, proto, 0, src, dst)), src, dst) + body
  }

  /** The header checks of `ip_rcv`, in its order. */
  ghost predicate IpAcceptable(p: Bytes) {
    && |p| >= IP_HLEN
    && p[0] % 0x10 >= 5 && p[0] / 0x10 == 4
    && |p| >= p[0] % 0x10 * 4
    && InternetChecksum(p[..p[0] % 0x10 * 4]) == 0
    && |p| >= Word16(p[3], p[2]) >= p[0] % 0x10 * 4
  }

  function IpProto(p: Bytes): byte
    requires |p| >= IP_HLEN
  {
    p[9]
  }

  function IpSaddr(p: Bytes): uint32
    requires |p| >= IP_HLEN
  {
    U32At(p, 12)
  }

  function IpDaddr(p: Bytes): uint32
    requires |p| >= IP_HLEN
  {
    U32At(p, 16)
  }

  function IpBody(p: Bytes): Bytes
    requires |p| >= IP_HLEN && |p| >= p[0] % 0x10 * 4
  {
    p[p[0] % 0x10 * 4..]
  }

  lemma IpHeaderParts(totLen: uint16, proto: byte, check: uint16, src: uint32, dst: uint32)
    ensures var h := IpHeader(totLen, proto, check, src, dst);
            && h == IpStart(totLen, proto) + Le16(check) + (Le32(src) + Le32(dst))
            && h[10] == Le16(check)[0] && h[11] == Le16(check)[1] && h[12..16] == Le32(src) && h[16..20] == Le32(dst)
  {
  }

  /** The checksum test of `ip_rcv` accepts every header that `ip_push_pending_frames` writes. */
  lemma IpHeaderVerifies(totLen: uint16, proto: byte, src: uint32, dst: uint32)
    ensures InternetChecksum(IpHeader(totLen, proto, InternetChecksum(IpHeader(totLen, proto, 0, src, dst)), src, dst)) == 0
  {
    var start, addresses := IpStart(totLen, proto), Le32(src) + Le32(dst);
    var blank := IpHeader(totLen, proto, 0, src, dst);
    IpHeaderParts(totLen, proto, 0, src, dst);
    IpHeaderParts(totLen, proto, InternetChecksum(blank), src, dst);
    StoreField(start, addresses, InternetChecksum(blank));
    GenerateThenVerify(blank, 10);
  }

  lemma IpRoundTrip(proto: byte, src: uint32, dst: uint32, body: Bytes)
    requires IP_HLEN + |body| < 0x1_0000
    ensures var p := IpPacket(proto, src, dst, body);
            && IpAcceptable(p) && IpProto(p) == proto && IpSaddr(p) == src && IpDaddr(p) == dst && IpBody(p) == body
            && Word16(p[3], p[2]) == |p|
  {
    var p := IpPacket(proto, src, dst, body);
    var len := IP_HLEN + |body|;
    IpHeaderVerifies(len, proto, src, dst);
    var check := InternetChecksum(IpHeader(len, proto, 0, src, dst));
    IpHeaderParts(len, proto, check, src, dst);
    assert p[..20] == IpHeader(len, proto, check, src, dst);
    assert p[12..16] == p[..20][12..16] && p[16..20] == p[..20][16..20];
    U32AtSlice(p, 12, src);
    U32AtSlice(p, 16, dst);
    assert p[20..] == body;
  }

  /** The length field is only a lower bound for what is received: bytes appended to a packet become part of its
      body. */
  lemma IpPadded(p: Bytes, padding: Bytes)
    requires IpAcceptable(p)
    ensures var q := p + padding;
            && IpAcceptable(q) && IpProto(q) == IpProto(p) && IpSaddr(q) == IpSaddr(p) && IpDaddr(q) == IpDaddr(p)
            && IpBody(q) == IpBody(p) + padding
  {
    hide InternetChecksum;
    var q, n := p + padding, p[0] % 0x10 * 4;
    assert q[..n] == p[..n];
    assert q[n..] == p[n..] + padding;
  }

  // ---------- UDP ----------

  function UdpHeader(sport: uint16, dport: uint16, len: uint16, check: uint16): (s: Bytes)
    ensures |s| == UDP_HLEN
  {
    [sport % 0x100, sport / 0x100, dport % 0x100, dport / 0x100, len / 0x100, len % 0x100, check % 0x100, check / 0x100]
  }

  /** The segment `udp_push_pending_frames` completes: its checksum covers the pseudo-header of RFC 768. */
  ghost function UdpSegment(src: uint32, dst: uint32, sport: uint16, dport: uint16, payload: Bytes): (s: Bytes)
    requires UDP_HLEN + |payload| < 0x1_0000
    ensures |s| == UDP_HLEN + |payload|
  {
    var len := UDP_HLEN + |payload|;
    var blank := UdpHeader(sport, dport, len, 0) + payload;
    var check := InternetChecksum(PseudoHeader(src, dst, Htons(len), IPPROTO_UDP as int) + blank);
    UdpHeader(sport, dport, len, check) + payload
  }

  /** The checksum a sender stores makes pseudo-header and segment sum to all ones, as a receiver that
      follows RFC 768 demands. */
  lemma UdpSegmentVerifies(src: uint32, dst: uint32, sport: uint16, dport: uint16, payload: Bytes)
    requires UDP_HLEN + |payload| < 0x1_0000
    ensures var pseudo := PseudoHeader(src, dst, Htons(UDP_HLEN + |payload|), IPPROTO_UDP as int);
            InternetChecksum(pseudo + UdpSegment(src, dst, sport, dport, payload)) == 0
  {
    var len := UDP_HLEN + |payload|;
    var pseudo := PseudoHeader(src, dst, Htons(len), IPPROTO_UDP as int);
    var blank := pseudo + (UdpHeader(sport, dport, len, 0) + payload);
    GenerateThenVerify(blank, 18);
    assert Store16(blank, 18, InternetChecksum(blank)) == pseudo + UdpSegment(src, dst, sport, dport, payload);
  }

  ghost predicate FitsDatagram(payload: Bytes) {
    IP_HLEN + UDP_HLEN + |payload| < 0x1_0000
  }

  /** The IP packet that `udp_sendmsg` hands to the neighbour layer. */
  ghost function UdpPacket(src: uint32, dst: uint32, sport: uint16, dport: uint16, payload: Bytes): (s: Bytes)
    requires FitsDatagram(payload)
    ensures |s| == IP_HLEN + UDP_HLEN + |payload|
  {
    IpPacket(IPPROTO_UDP, src, dst, UdpSegment(src, dst, sport, dport, payload))
  }

  /** What `udp_recvmsg` reports of a received segment: its sender and everything after the header. */
  datatype Datagram = Datagram(saddr: uint32, sport: uint16, payload: Bytes)

  lemma UdpRoundTrip(src: uint32, dst: uint32, sport: uint16, dport: uint16, payload: Bytes)
    requires FitsDatagram(payload)
    ensures var p := UdpPacket(src, dst, sport, dport, payload);
            && IpAcceptable(p) && IpProto(p) == IPPROTO_UDP && IpSaddr(p) == src && IpDaddr(p) == dst
            && |IpBody(p)| >= UDP_HLEN && U16At(IpBody(p), 0) == sport && U16At(IpBody(p), 2) == dport
            && IpBody(p)[UDP_HLEN..] == payload && Word16(p[3], p[2]) == |p|
  {
    var segment := UdpSegment(src, dst, sport, dport, payload);
    IpRoundTrip(IPPROTO_UDP, src, dst, segment);
    assert segment[8..] == payload;
  }

  /** Every byte of the packet but the two checks: version 4 and five header words; no service class, no identification,
      "do not fragment"; 64 hops, UDP; both length fields; addresses, ports and payload in place */
  lemma UdpPacketBytes(src: uint32, dst: uint32, sport: uint16, dport: uint16, payload: Bytes)
    requires FitsDatagram(payload)
    ensures var p := UdpPacket(src, dst, sport, dport, payload);
            && p[0] == 0x45 && p[1] == 0 && Word16(p[3], p[2]) == |p| == 28 + |payload|
            && p[4..8] == [0, 0, 0x40, 0] && p[8] == 64 && p[9] == 17 && p[12..16] == Le32(src) && p[16..20] == Le32(dst)
            && p[20..22] == Le16(sport) && p[22..24] == Le16(dport) && Word16(p[25], p[24]) == 8 + |payload| && p[28..] == payload
  {
    hide InternetChecksum;
    hide Le16;
    hide Le32;
    var segment := UdpSegment(src, dst, sport, dport, payload);
    var p := UdpPacket(src, dst, sport, dport, payload);
    IpPacketBytes(IPPROTO_UDP, src, dst, segment);
    UdpSegmentBytes(src, dst, sport, dport, payload);
    assert p[20..] == segment;
    assert p[20..22] == segment[..2] && p[22..24] == segment[2..4] && p[28..] == segment[8..];
    assert p[24] == segment[4] && p[25] == segment[5];
  }

  lemma IpPacketBytes(proto: byte, src: uint32, dst: uint32, body: Bytes)
    requires IP_HLEN + |body| < 0x1_0000
    ensures var p := IpPacket(proto, src, dst, body);
            && p[0] == 0x45 && p[1] == 0 && Word16(p[3], p[2]) == |p| && p[4..8] == [0, 0, 0x40, 0] && p[8] == 64
            && p[9] == proto && p[12..16] == Le32(src) && p[16..20] == Le32(dst) && p[20..] == body
  {
    hide InternetChecksum;
    hide Le32;
    hide Le16;
    var p, len := IpPacket(proto, src, dst, body), IP_HLEN + |body|;
    var check := InternetChecksum(IpHeader(len, proto, 0, src, dst));
    var header := IpHeader(len, proto, check, src, dst);
    IpHeaderParts(len, proto, check, src, dst);
    assert p[..20] == header && p[20..] == body;
    assert p[..10] == header[..10] == IpStart(len, proto);
    assert p[4..8] == p[..10][4..8];
    assert p[12..16] == header[12..16] && p[16..20] == header[16..20];
  }

  lemma UdpSegmentBytes(src: uint32, dst: uint32, sport: uint16, dport: uint16, payload: Bytes)
    requires UDP_HLEN + |payload| < 0x1_0000
    ensures var s := UdpSegment(src, dst, sport, dport, payload);
            s[..2] == Le16(sport) && s[2..4] == Le16(dport) && Word16(s[5], s[4]) == 8 + |payload| && s[8..] == payload
  {
    hide InternetChecksum;
  }

  /** The two checks: the header sums to all ones, as RFC 791 asks, and so does the segment with its pseudo-header of
      addresses, protocol and length, as RFC 768 asks. */
  lemma UdpPacketChecks(src: uint32, dst: uint32, sport: uint16, dport: uint16, payload: Bytes)
    requires FitsDatagram(payload)
    ensures var p := UdpPacket(src, dst, sport, dport, payload);
            && OnesSum(NetworkSum(p[..20])) == 0xffff
            && OnesSum(NetworkSum(p[12..16] + p[16..20] + [0, 17] + p[24..26] + p[20..])) == 0xffff
  {
    hide OnesSum;
    hide NetworkSum;
    hide InternetChecksum;
    hide Sum;
    hide Le32;
    hide Le16;
    hide Be16;
    var p, len := UdpPacket(src, dst, sport, dport, payload), UDP_HLEN + |payload|;
    var segment := UdpSegment(src, dst, sport, dport, payload);
    IpRoundTrip(IPPROTO_UDP, src, dst, segment);
    UdpPacketBytes(src, dst, sport, dport, payload);
    VerifiesIffAllOnes(p[..20]);
    UdpSegmentVerifies(src, dst, sport, dport, payload);
    var pseudo := PseudoHeader(src, dst, Htons(len), IPPROTO_UDP as int);
    VerifiesIffAllOnes(pseudo + segment);
    SegmentPseudo(src, dst, sport, dport, payload);
    assert p[20..] == segment && p[24..26] == segment[4..6];
  }

  lemma SegmentPseudo(src: uint32, dst: uint32, sport: uint16, dport: uint16, payload: Bytes)
    requires UDP_HLEN + |payload| < 0x1_0000
    ensures var s := UdpSegment(src, dst, sport, dport, payload);
            PseudoHeader(src, dst, Htons(UDP_HLEN + |payload|), IPPROTO_UDP as int) == Le32(src) + Le32(dst) + [0, 17] + s[4..6]
  {
    hide InternetChecksum;
    hide Le32;
    hide Htons;
    var s, len := UdpSegment(src, dst, sport, dport, payload), UDP_HLEN + |payload|;
    NetworkOrder(len);
    assert s[4..6] == Be16(len) && Be16(17) == [0, 17];
  }

  // ---------- which addresses ARP refuses ----------

  /** The loopback test selects 127.0.0.0/8 and the multicast test 224.0.0.0/4, read as they go over the wire. */
  lemma RefusedAddresses(a: uint32)
    ensures IsLoopback(a) <==> Le32(a)[0] == 127
    ensures IsMulticast(a) <==> 224 <= Le32(a)[0] < 240
  {
    hide IsLoopback;
    hide IsMulticast;
    hide Le32;
    FirstByte(a);
    LoopbackFirstByte(a);
    MulticastFirstByte(a);
  }

  lemma LoopbackFirstByte(a: uint32)
    ensures IsLoopback(a) <==> a % 0x100 == 127
  {
    hide Htonl;
    hide Bitwise32;
    HighByteFirst(0xff);
    HighByteFirst(0x7f);
    AndFirstByte(a);
  }

  lemma MulticastFirstByte(a: uint32)
    ensures IsMulticast(a) <==> 224 <= a % 0x100 < 240
  {
    hide Htonl;
    hide Bitwise32;
    HighByteFirst(0xf0);
    HighByteFirst(0xe0);
    AndFirstByte(a);
    ClassD(a % 0x100);
  }

  lemma ClassD(b: byte)
    ensures 0x10 * (b / 0x10) == 0xe0 <==> 224 <= b < 240
  {
  }

  lemma HighByteFirst(b: byte)
    ensures Htonl(0x100_0000 * (b as int)) == b
  {
    hide Htonl;
    HtonlBytes(0, 0, 0, b);
  }

  lemma FirstByte(a: uint32)
    ensures Le32(a)[0] == a % 0x100
  {
    LowByte(a, a / 0x1_0000, a % 0x1_0000);
  }

  lemma LowByte(a: int, hi: int, lo: int)
    requires a == 0x1_0000 * hi + lo
    ensures a % 0x100 == lo % 0x100
  {
    assert a == 0x100 * (0x100 * hi + lo / 0x100) + lo % 0x100;
  }

  // ---------- a computed UDP checksum of zero ----------

  /** Pseudo-header and segment with a cleared check field: what the checksum is taken of */
  ghost function Summed(src: uint32, dst: uint32, sport: uint16, dport: uint16, payload: Bytes): Bytes
    requires UDP_HLEN + |payload| < 0x1_0000
  {
    var len := UDP_HLEN + |payload|;
    PseudoHeader(src, dst, Htons(len), IPPROTO_UDP as int) + (UdpHeader(sport, dport, len, 0) + payload)
  }

  lemma CheckField(src: uint32, dst: uint32, sport: uint16, dport: uint16, payload: Bytes)
    requires UDP_HLEN + |payload| < 0x1_0000
    ensures UdpSegment(src, dst, sport, dport, payload)[6..8] == Le16(InternetChecksum(Summed(src, dst, sport, dport, payload)))
  {
    hide InternetChecksum;
  }

  /** RFC 768 reserves a transmitted checksum of zero for "none computed" and asks for all ones instead. The sender
      does not substitute it: the field it sends is zero exactly when the sum to be complemented is all ones. */
  lemma ZeroChecksumSent(src: uint32, dst: uint32, sport: uint16, dport: uint16, payload: Bytes)
    requires UDP_HLEN + |payload| < 0x1_0000
    ensures UdpSegment(src, dst, sport, dport, payload)[6..8] == [0, 0] <==>
            OnesSum(NetworkSum(Summed(src, dst, sport, dport, payload))) == 0xffff
  {
    hide InternetChecksum;
    hide OnesSum;
    hide NetworkSum;
    hide UdpSegment;
    hide Summed;
    var summed := Summed(src, dst, sport, dport, payload);
    VerifiesIffAllOnes(summed);
    CheckField(src, dst, sport, dport, payload);
    LeZero(InternetChecksum(summed));
  }

  lemma LeZero(w: uint16)
    ensures Le16(w) == [0, 0] <==> w == 0
  {
    assert w == Word16(w % 0x100, w / 0x100);
  }

  lemma UdpHeaderSum(sport: uint16, dport: uint16, len: uint16, check: uint16)
    ensures Sum(UdpHeader(sport, dport, len, check)) == sport + dport + Htons(len) + check
  {
    hide Sum;
    hide Word16;
    hide Htons;
    var ports, rest := Le16(sport) + Le16(dport), Be16(len) + Le16(check);
    NetworkOrder(len);
    assert UdpHeader(sport, dport, len, check) == ports + rest;
    SumAppend(ports, rest);
    SumAppend(Le16(sport), Le16(dport));
    SumAppend(Be16(len), Le16(check));
    SumLe16(sport);
    SumLe16(dport);
    SumLe16(Htons(len));
    SumLe16(check);
  }

  /** Such a datagram: an empty one from 10.0.0.2 to port 1 of 10.0.0.1. */
  lemma ZeroChecksumExample()
    ensures UdpSegment(0x0200_000a, 0x0100_000a, 56043, Htons(1), [])[6..8] == [0, 0]
  {
    hide UdpSegment;
    hide Sum;
    hide Summed;
    hide Le16;
    hide Htons;
    ZeroChecksumExampleSum();
    CheckField(0x0200_000a, 0x0100_000a, 56043, Htons(1), []);
    assert OnesSum(0xffff) == 0xffff;
    LeZero(InternetChecksum(Summed(0x0200_000a, 0x0100_000a, 56043, Htons(1), [])));
  }

  lemma ZeroChecksumExampleSum()
    ensures Sum(Summed(0x0200_000a, 0x0100_000a, 56043, Htons(1), [])) == 0xffff
  {
    hide Sum;
    hide UdpHeader;
    hide PseudoHeader;
    var header := UdpHeader(56043, Htons(1), 8, 0);
    var pseudo := PseudoHeader(0x0200_000a, 0x0100_000a, Htons(8), 17);
    assert header + [] == header;
    PseudoHeaderSum(0x0200_000a, 0x0100_000a, Htons(8), 17);
    UdpHeaderSum(56043, Htons(1), 8, 0);
    SumAppend(pseudo, header);
  }
}

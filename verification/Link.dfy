/** Link-layer output: `eth_header` (driver/ethernet.c) and the frames of `arp_create` (ipv4/arp.c), written into
    buffers in place and proved against Frames. */
module Link {
  import opened Words
  import opened Wrappers
  import opened Ethernet
  import opened Frames
  import opened Resolution
  import opened Skbuff
  import opened Memory

  /** `eth_header`: pushes and fills the link header. It uses the result of `skb_push` unchecked, so there has to be
      room. Without a destination it fails, the header half written. */
  method EthHeader(skb: SkBuff, dev: Device, proto: uint16, daddr: Option<Mac>, saddr: Option<Mac>) returns (err: int)
    requires skb.Geometry() && skb.data >= ETH_HLEN
    modifies skb`data, skb`len, skb.buf
    ensures skb.Geometry() && skb.data == old(skb.data) - ETH_HLEN
    ensures err == if daddr.None? then -1 else ETH_HLEN
    ensures daddr.Some? ==>
              var source := if saddr.None? then dev.devAddr else saddr.value;
              skb.View() == EthFrame(daddr.value, source, proto, old(skb.View()))
  {
    hide Be16;
    ghost var before := skb.buf[..];
    var eth := skb.Push(ETH_HLEN);
    Memcpy(skb.buf, eth.value + 12, Be16(proto));
    var source := if saddr.None? then dev.devAddr else saddr.value;
    Memcpy(skb.buf, eth.value + 6, source);
    if daddr.Some? {
      Memcpy(skb.buf, eth.value, daddr.value);
      EthWritten(before, skb.data, daddr.value, source, Be16(proto), skb.tail);
      return ETH_HLEN;
    }
    return -1;
  }

  lemma EthWritten(s: Bytes, d: nat, dest: Mac, source: Mac, proto: Bytes, tail: nat)
    requires |proto| == 2 && d + ETH_HLEN <= tail <= |s|
    ensures Written(Written(Written(s, d + 12, proto), d + 6, source), d, dest)[d..tail] ==
            dest + source + proto + s[d + ETH_HLEN..tail]
  {
    var a := Written(s, d + 12, proto);
    var b := Written(a, d + 6, source);
    var c := Written(b, d, dest);
    assert c[d..d + 6] == dest;
    assert c[d + 6..d + 12] == b[d + 6..d + 12] == source;
    assert c[d + 12..d + 14] == b[d + 12..d + 14] == a[d + 12..d + 14] == proto;
    assert a[d + 14..tail] == s[d + 14..tail];
    assert b[d + 14..tail] == a[d + 14..tail];
    assert c[d + 14..tail] == b[d + 14..tail];
    assert c[d + 12..tail] == proto + s[d + 14..tail];
    assert c[d + 6..tail] == source + c[d + 12..tail];
    assert c[d..tail] == dest + c[d + 6..tail];
  }

  /** `arp_create`: a buffer of exactly the size of an ARP frame, filled in place. The link header is pushed
      before the body is written behind it. */
  method ArpCreate(op: uint16, destIp: uint32, dev: Device, srcIp: uint32, destHw: Option<Mac>, srcHw: Option<Mac>,
                   targetHw: Option<Mac>)
    returns (skb: SkBuff)
    ensures fresh(skb) && fresh(skb.buf)
    ensures skb.Geometry() && skb.data == 0 && skb.tail == skb.buf.Length == ETH_HLEN + ARP_LEN
    ensures var source := if srcHw.None? then dev.devAddr else srcHw.value;
            var dest := if destHw.None? then BROADCAST_ADDR else destHw.value;
            var target := if targetHw.None? then ZERO_ADDR else targetHw.value;
            skb.View() == EthFrame(dest, source, ETH_P_ARP, ArpBytes(ArpPacket(op, source, srcIp, target, destIp)))
  {
    hide ArpBytes;
    skb := new SkBuff(ETH_HLEN + ARP_LEN);
    skb.Reserve(ETH_HLEN);
    skb.nh := skb.data;
    var arp := skb.Put(ARP_LEN);
    skb.protocol := Htons(ETH_P_ARP);
    var source := if srcHw.None? then dev.devAddr else srcHw.value;
    var dest := if destHw.None? then BROADCAST_ADDR else destHw.value;
    var target := if targetHw.None? then ZERO_ADDR else targetHw.value;
    var _ := EthHeader(skb, dev, ETH_P_ARP, Some(dest), Some(source));
    ghost var framed := skb.buf[..];
    ArpWrite(skb.buf, arp.value, op, source, srcIp, target, destIp);
    ArpBehindLinkHeader(framed, dest, source, ArpBytes(ArpPacket(op, source, srcIp, target, destIp)));
  }

  /** The stores through `arp` and `arp_ptr` */
  method ArpWrite(buf: array<byte>, off: nat, op: uint16, source: Mac, srcIp: uint32, target: Mac, destIp: uint32)
    requires off + ARP_LEN <= buf.Length
    modifies buf
    ensures buf[..] == Written(old(buf[..]), off, ArpBytes(ArpPacket(op, source, srcIp, target, destIp)))
  {
    ghost var s, f := buf[..], [0, 1, 0x08, 0x00, 6, 4, op / 0x100, op % 0x100];
    Memcpy(buf, off, [0, 1, 0x08, 0x00, 6, 4, op / 0x100, op % 0x100]);
    var arpPtr := off + 8;
    StoreNext(buf, arpPtr, source, s, off, f);
    arpPtr := arpPtr + ETH_ALEN;
    StoreNext(buf, arpPtr, Le32(srcIp), s, off, f + source);
    arpPtr := arpPtr + 4;
    StoreNext(buf, arpPtr, target, s, off, f + source + Le32(srcIp));
    arpPtr := arpPtr + ETH_ALEN;
    StoreNext(buf, arpPtr, Le32(destIp), s, off, f + source + Le32(srcIp) + target);
  }

  lemma ArpBehindLinkHeader(framed: Bytes, dest: Mac, source: Mac, arp: Bytes)
    requires |framed| == ETH_HLEN + ARP_LEN && |arp| == ARP_LEN
    requires framed[..ETH_HLEN] == dest + source + Be16(ETH_P_ARP)
    ensures Written(framed, ETH_HLEN, arp) == EthFrame(dest, source, ETH_P_ARP, arp)
  {
  }
}

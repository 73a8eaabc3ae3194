/** Ethernet addresses and devices (driver/ethernet.c, include/netdevice.h). */
module Ethernet {
  import opened Words
  import opened Bits

  const ETH_ALEN: nat := 6
  const ETH_HLEN: nat := 14
  const ETH_DATA_LEN: nat := 1500
  const ETH_P_IP: uint16 := 0x0800
  const ETH_P_ARP: uint16 := 0x0806

  type Mac = s: Bytes | |s| == ETH_ALEN witness [0, 0, 0, 0, 0, 0]

  /** A device as `ether_setup` leaves it: six-byte addresses and the Ethernet broadcast address. */
  datatype Device = Device(ifindex: int, devAddr: Mac)

  const BROADCAST_ADDR: Mac := [0xff, 0xff, 0xff, 0xff, 0xff, 0xff]

  /** `is_multicast_ether_addr` */
  predicate IsMulticastEtherAddr(addr: Mac) {
    Bitwise8(And, 0x01, addr[0]) != 0
  }

  /** `compare_ether_addr`: zero exactly for equal addresses. */
  function CompareEtherAddr(a: Mac, b: Mac): (r: uint16)
    ensures r == 0 <==> a == b
  {
    var x0 := Bitwise16(Xor, U16At(a, 0), U16At(b, 0));
    var x1 := Bitwise16(Xor, U16At(a, 2), U16At(b, 2));
    var x2 := Bitwise16(Xor, U16At(a, 4), U16At(b, 4));
    CompareZero(a, b, x0, x1, x2);
    Bitwise16(Or, Bitwise16(Or, x0, x1), x2)
  }

  lemma CompareZero(a: Mac, b: Mac, x0: uint16, x1: uint16, x2: uint16)
    requires x0 == Bitwise16(Xor, U16At(a, 0), U16At(b, 0))
    requires x1 == Bitwise16(Xor, U16At(a, 2), U16At(b, 2))
    requires x2 == Bitwise16(Xor, U16At(a, 4), U16At(b, 4))
    ensures Bitwise16(Or, Bitwise16(Or, x0, x1), x2) == 0 <==> a == b
  {
    hide Bitwise;
    hide Word16;
    XorZero(U16At(a, 0), U16At(b, 0));
    XorZero(U16At(a, 2), U16At(b, 2));
    XorZero(U16At(a, 4), U16At(b, 4));
    OrIsZero(x0, x1);
    OrIsZero(Bitwise16(Or, x0, x1), x2);
    Word16Same(a[0], a[1], b[0], b[1]);
    Word16Same(a[2], a[3], b[2], b[3]);
    Word16Same(a[4], a[5], b[4], b[5]);
    assert a == [a[0], a[1], a[2], a[3], a[4], a[5]];
    assert b == [b[0], b[1], b[2], b[3], b[4], b[5]];
  }

  datatype PktType = PacketHost | PacketBroadcast | PacketMulticast | PacketOtherhost

  /** The classification in `eth_type_trans`. A zeroed buffer descriptor starts as `PACKET_HOST`. */
  function Classify(dest: Mac, dev: Device): PktType {
    if IsMulticastEtherAddr(dest) then
      if CompareEtherAddr(dest, BROADCAST_ADDR) == 0 then PacketBroadcast else PacketMulticast
    else if CompareEtherAddr(dest, dev.devAddr) != 0 then PacketOtherhost
    else PacketHost
  }

  lemma MulticastBit(addr: Mac)
    ensures IsMulticastEtherAddr(addr) <==> addr[0] % 2 == 1
  {
    hide Bitwise;
    BitwiseStep(And, 0x01, addr[0]);
    ZeroAnd(addr[0] / 2);
  }

  lemma BroadcastIsMulticast()
    ensures IsMulticastEtherAddr(BROADCAST_ADDR)
  {
    MulticastBit(BROADCAST_ADDR);
  }

  /** Which frames are for this host, for all hosts, for a group, for another host: by the bytes of the destination */
  lemma ClassifyExactly(dest: Mac, dev: Device)
    ensures Classify(dest, dev) == PacketHost <==> dest == dev.devAddr && dest[0] % 2 == 0
    ensures Classify(dest, dev) == PacketOtherhost <==> dest != dev.devAddr && dest[0] % 2 == 0
    ensures Classify(dest, dev) == PacketBroadcast <==> dest == [0xff, 0xff, 0xff, 0xff, 0xff, 0xff]
    ensures Classify(dest, dev) == PacketMulticast <==> dest != [0xff, 0xff, 0xff, 0xff, 0xff, 0xff] && dest[0] % 2 == 1
  {
    hide IsMulticastEtherAddr;
    hide CompareEtherAddr;
    MulticastBit(dest);
  }
}

/** What a received frame is, by its bytes: for whom it is and whether it is well formed. Nothing here refers to how the
    receive path finds out. */
module Arrivals {
  import opened Words
  import opened Checksum
  import opened Ethernet

  /** What one read of the device gets of a frame: at most 1514 bytes */
  ghost function Read(frame: Bytes): Bytes {
    if |frame| <= 1514 then frame else frame[..1514]
  }

  /** The length of the header of an IP packet, by its first byte */
  function HeaderLen(p: Bytes): nat
    requires |p| >= 20
  {
    4 * (p[0] % 0x10)
  }

  /** A packet of version 4 whose header is there, at least five words long and sums to all ones, and whose length field
      lies between the length of the header and that of the packet. */
  ghost predicate WellFormedIp(p: Bytes) {
    && |p| >= 20 && p[0] / 0x10 == 4 && 20 <= HeaderLen(p) <= |p|
    && OnesSum(NetworkSum(p[..HeaderLen(p)])) == 0xffff
    && HeaderLen(p) <= Word16(p[3], p[2]) <= |p|
  }

  /** A frame with a well-formed IP packet, addressed to this device and to an address of this host */
  ghost predicate IpForHost(f: Bytes, dev: Device, local: iset<uint32>) {
    && |f| >= 34 && f[..6] == dev.devAddr && f[0] % 2 == 0 && f[12] == 0x08 && f[13] == 0x00
    && WellFormedIp(f[14..]) && U32At(f, 30) in local
  }

  /** Such a packet for a transport that nobody registered */
  ghost predicate Unregistered(f: Bytes, dev: Device, local: iset<uint32>, protos: seq<byte>) {
    IpForHost(f, dev, local) && f[23] !in protos
  }

  /** Where the transport header of such a packet begins */
  ghost function SegmentAt(f: Bytes): nat
    requires |f| >= 34
  {
    14 + HeaderLen(f[14..])
  }

  /** Such a packet with a UDP header, for a registered transport */
  ghost predicate HasDatagram(f: Bytes, dev: Device, local: iset<uint32>, protos: seq<byte>) {
    IpForHost(f, dev, local) && f[23] in protos && |f| >= SegmentAt(f) + 8
  }

  /** The destination port of the datagram, a big-endian number */
  ghost function PortIn(f: Bytes): nat
    requires |f| >= 34 && |f| >= SegmentAt(f) + 8
  {
    Word16(f[SegmentAt(f) + 3], f[SegmentAt(f) + 2])
  }

  /** A datagram for a port in use */
  ghost predicate ForPort(f: Bytes, dev: Device, local: iset<uint32>, protos: seq<byte>, ports: set<nat>) {
    HasDatagram(f, dev, local, protos) && PortIn(f) < 512 && PortIn(f) in ports
  }

  /** An ARP request or reply for Ethernet and IP, addressed to this device or to a group, with a target that is neither
      loopback nor multicast */
  ghost predicate ArpForHost(f: Bytes, dev: Device) {
    && |f| >= 42 && (f[..6] == dev.devAddr || f[0] % 2 == 1)
    && f[12..21] == [0x08, 0x06, 0, 1, 8, 0, 6, 4, 0] && (f[21] == 1 || f[21] == 2)
    && f[38] != 127 && !(224 <= f[38] < 240)
  }
}

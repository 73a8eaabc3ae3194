/** Datagram sockets (include/sock.h, include/inet_sock.h, core/sock.c). */
module Sockets {
  import opened Words
  import opened Frames
  import opened Skbuff

  /** `struct udp_sock` with its `inet_sock` and `sock`. The receive queue is a sequence here; Skbuff shows that
      the pointer queue acts as one. */
  class Sock {
    const protocol: byte
    const writeQueue: SkBuffHead
    var receiveQueue: seq<SkBuff>
    var num: uint16
    var sport: uint16
    var dport: uint16
    var saddr: uint32
    var daddr: uint32
    var ulen: uint16

    /** Between two calls the write queue is empty. */
    ghost predicate Valid()
      reads writeQueue, writeQueue.list, writeQueue.contents
    {
      protocol == IPPROTO_UDP && writeQueue.Valid() && writeQueue.contents == []
    }

    /** `inet_create` and `sock_init_data`, for a datagram socket */
    constructor ()
      ensures Valid() && fresh(writeQueue) && fresh(writeQueue.list) && receiveQueue == []
    {
      protocol := IPPROTO_UDP;
      writeQueue := new SkBuffHead();
      receiveQueue := [];
      num, sport, dport, saddr, daddr, ulen := 0, 0, 0, 0, 0, 0;
    }
  }
}

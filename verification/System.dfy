/** The C-like stack behaves as the hosts of Hosts do: it starts as a host that has just been switched on, and
    receiving a frame, sending a datagram and binding a socket are the steps `Hear`, `Send` and `BindSocket`. Hence what Hosts
    proves of the runs of hosts holds of the runs of stacks. */
module System {
  import opened Words
  import opened Wrappers
  import opened Ethernet
  import opened Frames
  import opened Resolution
  import opened NeighbourTable
  import opened Fib
  import opened FibFrontend
  import opened Skbuff
  import opened Sockets
  import opened Input
  import opened Output
  import opened Arrivals
  import opened Hosts

  ghost predicate QueueHolds(queue: seq<SkBuff>, datagrams: seq<Datagram>)
    reads (set b | b in queue)`data, (set b | b in queue)`tail, (set b | b in queue)`len, (set b | b in queue)`nh,
          (set b | b in queue)`h, set b | b in queue :: b.buf
  {
    |queue| == |datagrams| && forall i :: 0 <= i < |queue| ==> queue[i] in queue && Holds(queue[i], datagrams[i])
  }

  ghost function PortsOf(table: seq<Option<Sock>>): set<nat> {
    set k: nat | k < |table| && table[k].Some?
  }

  /** Each port's socket, a different one for each, holds the port's datagrams. */
  ghost predicate QueuesModel(queues: map<nat, seq<Datagram>>, table: seq<Option<Sock>>, q: map<Sock, seq<SkBuff>>)
    reads *
  {
    && |table| == MAXUDPSOCKNUM && queues.Keys == PortsOf(table)
    && (forall k :: k in queues ==> table[k].value in q && QueueHolds(q[table[k].value], queues[k]))
    && forall j, k :: j in queues && k in queues && j != k ==> table[j] != table[k]
  }

  /** The stack, with one device, is in the state of the host. */
  ghost predicate Models(h: Host, st: Stack)
    reads *
  {
    && st.Valid() && st.ptypes == PTYPES && st.protos == [IPPROTO_UDP]
    && h.local == st.fib.local.routes && h.main == st.fib.main.routes && h.neigh == st.arp.state
    && QueuesModel(h.queues, st.Table(), st.Account().queues)
  }

  // ---------- the start ----------

  /** `inet_init` and `NETDEV_UP`: the stack is a host with the routes of its interface addresses and nothing else. */
  method PowerUp(dev: Device, ifas: seq<Ifaddr>) returns (st: Stack)
    requires forall i :: 0 <= i < |ifas| ==> ifas[i].prefixlen != 0
    ensures Models(Host(dev, LocalTable(ifas), MainTable(ifas), INIT, map[]), st) && st.InOrder() && st.InPlace(dev)
    ensures fresh(st) && fresh(st.ledger) && fresh(st.udptable) && fresh(st.arp) && st.arp.buckets == [] && st.Socks() == {}
  {
    hide ArpTable.Valid;
    hide Tables.Valid;
    hide LocalTable;
    hide MainTable;
    st := new Stack();
    var _ := st.fib.FibNetdevEvent(NETDEV_UP, Some(ifas));
    st.NewInOrder();
    TableOf(st);
    assert [] + LocalTable(ifas) == LocalTable(ifas) && [] + MainTable(ifas) == MainTable(ifas);
  }

  // ---------- the steps ----------

  /** The queues after a verdict */
  lemma QueuesEntered(queues: map<nat, seq<Datagram>>, table: seq<Option<Sock>>, b: Books, v: Verdict, skb: SkBuff)
    requires QueuesModel(queues, table, b.queues)
    requires v.Delivered? ==> v.port in queues && Holds(skb, v.datagram)
    ensures QueuesModel(Deliver(queues, v), table, Entered(b, table, v, skb).queues)
  {
    hide Holds;
    var after, q := Deliver(queues, v), Entered(b, table, v, skb).queues;
    forall k | k in after ensures table[k].value in q && QueueHolds(q[table[k].value], after[k]) {
      assert QueueHolds(b.queues[table[k].value], queues[k]);
      assert v.Delivered? && v.port != k ==> table[k] != table[v.port];
    }
  }

  /** Receiving a frame is the step `Hear`. */
  method StackHears(st: Stack, dev: Device, frame: Bytes, ghost h: Host)
    requires Models(h, st) && h.dev == dev
    modifies st.ledger, st.Socks()`receiveQueue, st.arp, st.arp.buckets
    ensures Models(Hear(h, frame), st) && st.Socks() == old(st.Socks())
    ensures forall m :: m in st.arp.buckets ==> m in old(st.arp.buckets) || fresh(m)
  {
    hide Stack.Valid;
    hide FrameVerdict;
    hide FrameEffect;
    hide IsLocalAddr;
    hide Holds;
    hide Stack.Account;
    hide Stack.Table;
    hide QueueHolds;
    hide Entered;
    hide Deliver;
    assert LocalOf(h) == st.Local();
    ghost var before, table := st.Account(), st.Table();
    TableOf(st);
    var skb := st.EtherRx(frame, dev);
    forall k | k in h.queues ensures QueueHolds(before.queues[table[k].value], h.queues[k]) {
      assert old(QueueHolds(before.queues[table[k].value], h.queues[k]));
    }
    if skb != null {
      ghost var v := FrameVerdict(PTYPES, frame, dev, LocalOf(h), [IPPROTO_UDP], h.queues.Keys);
      QueuesEntered(h.queues, table, TakenIn(before, skb, Read(frame)), v, skb);
    }
  }

  lemma TableOf(st: Stack)
    ensures |st.Table()| == st.udptable.Length && PortsOf(st.Table()) == st.Ports() && st.Account().queues.Keys == st.Socks()
  {
    assert forall k :: 0 <= k < st.udptable.Length ==> st.Table()[k] == st.udptable[k];
  }

  /** Sending a datagram from a socket is the step `Send`. */
  method StackSends(st: Stack, sk: Sock, daddr: uint32, dport: uint16, payload: Bytes, ghost h: Host)
    requires Models(h, st) && sk.Valid() && FitsDatagram(payload)
    modifies sk`ulen, sk`daddr, sk`saddr, sk`dport, sk.writeQueue, sk.writeQueue.list`next, sk.writeQueue.list`prev
    modifies st.arp, st.arp.buckets
    ensures Models(Send(h, sk.sport, daddr, dport, payload), st) && sk.Valid() && sk.sport == old(sk.sport)
    ensures forall m :: m in st.arp.buckets ==> m in old(st.arp.buckets) || fresh(m)
  {
    hide ArpTable.Valid;
    hide Tables.Valid;
    hide SkBuffHead.Valid;
    hide UdpPacket;
    hide Submit;
    hide Create;
    hide QueueHolds;
    hide Stack.Table;
    ghost var before, table := st.Account(), st.Table();
    var _ := UdpSendmsg(sk, st.fib, st.arp, daddr, dport, payload);
    assert st.Account() == before;
    forall k | k in h.queues ensures QueueHolds(before.queues[table[k].value], h.queues[k]) {
      assert old(QueueHolds(before.queues[table[k].value], h.queues[k]));
    }
  }

  /** Giving a port to a new socket is the step `BindSocket`. */
  method StackBinds(st: Stack, sk: Sock, snum: uint16, ghost h: Host)
    requires Models(h, st) && sk !in st.Socks() && sk.receiveQueue == []
    modifies st.udptable, sk`num
    ensures Models(BindSocket(h, snum), st) && st.Socks() <= old(st.Socks()) + {sk}
  {
    hide ArpTable.Valid;
    hide Tables.Valid;
    hide QueueHolds;
    hide Stack.Account;
    hide Stack.Table;
    hide PortFor;
    ghost var before, table := st.Account(), st.Table();
    TableOf(st);
    var err := st.Assign(sk, snum);
    TableOf(st);
    forall k | k in h.queues ensures QueueHolds(before.queues[table[k].value], h.queues[k]) {
      assert old(QueueHolds(before.queues[table[k].value], h.queues[k]));
    }
    if err == 0 {
      QueuesBound(h.queues, table, before.queues, sk.num, sk);
    }
  }

  lemma QueuesBound(queues: map<nat, seq<Datagram>>, table: seq<Option<Sock>>, q: map<Sock, seq<SkBuff>>, port: nat, sk: Sock)
    requires QueuesModel(queues, table, q) && port < |table| && table[port].None? && sk !in q
    ensures QueuesModel(queues[port := []], table[port := Some(sk)], q[sk := []])
  {
    hide Holds;
    var after := table[port := Some(sk)];
    assert forall k :: 0 <= k < |table| && k != port ==> after[k] == table[k];
    assert QueueHolds([], []);
    assert forall k :: k in queues ==> k != port && QueueHolds(q[table[k].value], queues[k]);
  }

  // ---------- runs ----------

  /** The socket of a stimulus: the one a datagram is sent from, or a new one that asks for a port */
  ghost predicate Equipped(st: Stack, stim: Stimulus, sk: Sock)
    reads st.udptable, sk, sk.writeQueue, sk.writeQueue.list, sk.writeQueue.contents
  {
    && (stim.Sending? ==> sk.Valid() && sk.sport == stim.sport && FitsDatagram(stim.payload))
    && (stim.Binding? ==> sk !in st.Socks() && sk.receiveQueue == [])
  }

  method StackReacts(st: Stack, dev: Device, stim: Stimulus, sk: Sock, ghost h: Host)
    requires Models(h, st) && h.dev == dev && Equipped(st, stim, sk)
    modifies st.ledger, st.udptable, st.Socks()`receiveQueue, st.arp, st.arp.buckets, sk`num
    modifies sk`ulen, sk`daddr, sk`saddr, sk`dport, sk.writeQueue, sk.writeQueue.list`next, sk.writeQueue.list`prev
    ensures Models(React(h, stim), st) && st.Socks() <= old(st.Socks()) + if stim.Binding? then {sk} else {}
    ensures sk.sport == old(sk.sport) && (old(sk.Valid()) ==> sk.Valid())
    ensures forall m :: m in st.arp.buckets ==> m in old(st.arp.buckets) || fresh(m)
  {
    hide Models;
    hide Send;
    hide Hear;
    hide BindSocket;
    hide SkBuffHead.Valid;
    match stim {
      case Sending(_, daddr, dport, payload) => StackSends(st, sk, daddr, dport, payload, h);
      case Hearing(frame) => StackHears(st, dev, frame, h);
      case Binding(snum) => StackBinds(st, sk, snum, h);
    }
  }

  /** Sockets do not share their write queues. */
  ghost predicate Apart(socks: seq<Sock>) {
    forall i, j :: 0 <= i < |socks| && 0 <= j < |socks| && socks[i] != socks[j] ==>
      socks[i].writeQueue != socks[j].writeQueue && socks[i].writeQueue.list != socks[j].writeQueue.list
  }

  /** The sockets of the stimuli from the `i`th on, a new one for each port asked for */
  ghost predicate AllEquipped(st: Stack, stims: seq<Stimulus>, socks: seq<Sock>, i: nat)
    reads *
  {
    && |socks| == |stims| && Apart(socks)
    && (forall j :: i <= j < |stims| ==> Equipped(st, stims[j], socks[j]))
    && forall j, k :: i <= j < k < |stims| && stims[j].Binding? && stims[k].Binding? ==> socks[j] != socks[k]
  }

  method StackReactsNext(st: Stack, dev: Device, stims: seq<Stimulus>, socks: seq<Sock>, i: nat, ghost h: Host)
    requires i < |stims| && AllEquipped(st, stims, socks, i) && Models(h, st) && h.dev == dev
    modifies st.ledger, st.udptable, st.Socks()`receiveQueue, st.arp, st.arp.buckets
    modifies socks[i], socks[i].writeQueue, socks[i].writeQueue.list
    ensures (stims[i].Sending? ==> FitsDatagram(stims[i].payload)) && Models(React(h, stims[i]), st) && AllEquipped(st, stims, socks, i + 1)
    ensures st.Socks() <= old(st.Socks()) + {socks[i]}
    ensures forall m :: m in st.arp.buckets ==> m in old(st.arp.buckets) || fresh(m)
  {
    hide Models;
    hide React;
    hide SkBuffHead.Valid;
    hide FitsDatagram;
    StackReacts(st, dev, stims[i], socks[i], h);
    forall j | i < j < |stims| ensures Equipped(st, stims[j], socks[j]) {
      var sk, other := socks[i], socks[j];
      assert old(Equipped(st, stims[j], socks[j]));
      assert other != sk ==> other.writeQueue != sk.writeQueue && other.writeQueue.list != sk.writeQueue.list;
    }
  }

  /** A run of the stack is the run of the host; and what it has put on the wire is what the host's log says. */
  method StackRuns(st: Stack, dev: Device, stims: seq<Stimulus>, socks: seq<Sock>, ghost h: Host)
    requires Models(h, st) && h.dev == dev && Sendable(stims) && AllEquipped(st, stims, socks, 0)
    modifies st.ledger, st.udptable, st.Socks()`receiveQueue, st.arp, st.arp.buckets, set k | k in socks
    modifies set k | k in socks :: k.writeQueue, set k | k in socks :: k.writeQueue.list
    ensures Models(HostRun(h, stims), st) && st.arp.wire == Wire(HostRun(h, stims).neigh.log)
  {
    hide Models;
    hide React;
    hide Equipped;
    hide Apart;
    var i := 0;
    while i < |stims|
      invariant i <= |stims| && Models(HostRun(h, stims[..i]), st) && AllEquipped(st, stims, socks, i)
      invariant forall sk :: sk in st.Socks() ==> sk in old(st.Socks()) || sk in socks
      invariant forall m :: m in st.arp.buckets ==> m in old(st.arp.buckets) || fresh(m)
    {
      assert forall k :: 0 <= k < |st.arp.buckets| ==> st.arp.buckets[k] in st.arp.buckets;
      assert socks[i] in socks;
      HostRunSame(h, stims[..i]);
      StackReactsNext(st, dev, stims, socks, i, HostRun(h, stims[..i]));
      assert stims[..i + 1][..i] == stims[..i];
      i := i + 1;
    }
    assert stims[..i] == stims;
    WireOf(st, HostRun(h, stims));
  }

  lemma WireOf(st: Stack, h: Host)
    requires Models(h, st)
    ensures st.arp.wire == Wire(h.neigh.log)
  {
  }

  /** Conservation on the wire. Whatever a stack that was just switched on has gone through: the frames it has put on the
      wire are those of its log, in order; there the data packets for each neighbour, followed by those still parked for
      it, are the ones submitted, in order; and each went to the address in the latest ARP packet accepted. */
  lemma WireConserves(st: Stack, h: Host, stims: seq<Stimulus>, id: Id)
    requires Sendable(stims) && h.neigh == INIT && Models(HostRun(h, stims), st)
    ensures var g := HostRun(h, stims).neigh;
            && st.arp.wire == Wire(g.log) && Safe(g.log)
            && DataOf(g.log, id) + QueueOf(g, id) == Submitted(AllEvents(h, stims), id)
  {
    hide Models;
    WireOf(st, HostRun(h, stims));
    HostConserves(h, stims, id);
  }
}

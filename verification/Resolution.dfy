/** Address resolution as a step system: the neighbour table as a map, and the log of what was learned and
    sent. core/neighbour.c and ipv4/arp.c refine it (see NeighbourTable); this module proves what holds
    over every run. */
module Resolution {
  import opened Words
  import opened Wrappers
  import opened Ethernet
  import opened Frames

  /** `nud_state` */
  type Nud = x: int | 0 <= x <= 2
  const NUD_NONE: Nud := 0
  const NUD_INCOMPLETE: Nud := 1
  const NUD_REACHABLE: Nud := 2

  const ZERO_ADDR: Mac := [0, 0, 0, 0, 0, 0]

  /** An IP packet, header included. */
  type Packet = s: Bytes | |s| >= IP_HLEN witness seq(IP_HLEN, _ => 0)

  /** A neighbour is identified by its protocol address and the device it is on. */
  datatype Id = Id(addr: uint32, dev: Device)

  datatype Cell = Cell(state: Nud, ha: Mac, queue: seq<Packet>)

  /** What happens at a host: an accepted ARP packet, a data frame or an ARP frame handed to the device. */
  datatype Record =
    | Accepted(id: Id, arp: ArpPacket)
    | SentData(id: Id, ha: Mac, packet: Packet)
    | SentArp(dev: Device, dest: Mac, arp: ArpPacket)

  datatype State = State(table: map<Id, Cell>, log: seq<Record>)

  const INIT: State := State(map[], [])

  // ---------- the operations ----------

  function Request(id: Id, packet: Packet): ArpPacket {
    ArpPacket(ARPOP_REQUEST, id.dev.devAddr, IpSaddr(packet), ZERO_ADDR, id.addr)
  }

  function Reply(dev: Device, p: ArpPacket): ArpPacket {
    ArpPacket(ARPOP_REPLY, dev.devAddr, p.tip, p.sha, p.sip)
  }

  function SetCell(s: State, id: Id, c: Cell): State {
    s.(table := s.table[id := c])
  }

  function Log(s: State, r: Record): State {
    s.(log := s.log + [r])
  }

  /** Look up or create (`__neigh_lookup_errno`). */
  function Create(s: State, id: Id): State {
    if id in s.table then s else SetCell(s, id, Cell(NUD_NONE, ZERO_ADDR, []))
  }

  /** A packet reaches a neighbour's output function (`neigh_resolve_output`). */
  function Submit(s: State, id: Id, packet: Packet): State {
    if id !in s.table then s
    else
      var c := s.table[id];
      if c.state == NUD_REACHABLE then
        Log(s, SentData(id, c.ha, packet))
      else
        var asked := if c.state == NUD_NONE then Log(s, SentArp(id.dev, BROADCAST_ADDR, Request(id, packet))) else s;
        SetCell(asked, id, c.(state := NUD_INCOMPLETE, queue := c.queue + [packet]))
  }

  /** The parked packets leave, in order, to the address just learned. */
  function Flush(log: seq<Record>, id: Id, ha: Mac, queue: seq<Packet>): seq<Record> {
    if queue == [] then log
    else Flush(log, id, ha, queue[..|queue| - 1]) + [SentData(id, ha, queue[|queue| - 1])]
  }

  /** A known neighbour's address is learned (`neigh_update` to `NUD_REACHABLE`). */
  function Learn(s: State, id: Id, p: ArpPacket): State {
    if id !in s.table then s
    else State(s.table[id := Cell(NUD_REACHABLE, p.sha, [])],
               Flush(s.log + [Accepted(id, p)], id, p.sha, s.table[id].queue))
  }

  /** The state in the middle of a flush: `sent` packets have left, those from `parked` on wait. */
  ghost function Flushing(s: State, id: Id, p: ArpPacket, queue: seq<Packet>, sent: nat, parked: nat): State
    requires sent <= |queue| && parked <= |queue|
  {
    State(s.table[id := Cell(NUD_REACHABLE, p.sha, queue[parked..])],
          Flush(s.log + [Accepted(id, p)], id, p.sha, queue[..sent]))
  }

  lemma SetCellTwice(s: State, id: Id, a: Cell, b: Cell)
    ensures SetCell(SetCell(s, id, a), id, b) == SetCell(s, id, b)
  {
  }

  /** Taking the next packet off the queue, and sending it, are the steps of a flush. */
  lemma FlushingDequeue(s: State, id: Id, p: ArpPacket, queue: seq<Packet>, k: nat)
    requires k < |queue|
    ensures var f := Flushing(s, id, p, queue, k, k); var c := f.table[id];
            c.queue != [] && c.queue[0] == queue[k] && SetCell(f, id, c.(queue := c.queue[1..])) == Flushing(s, id, p, queue, k, k + 1)
  {
    SetCellTwice(s, id, Cell(NUD_REACHABLE, p.sha, queue[k..]), Cell(NUD_REACHABLE, p.sha, queue[k + 1..]));
    assert queue[k..][1..] == queue[k + 1..];
  }

  lemma FlushingSend(s: State, id: Id, p: ArpPacket, queue: seq<Packet>, k: nat)
    requires k < |queue|
    ensures Submit(Flushing(s, id, p, queue, k, k + 1), id, queue[k]) == Flushing(s, id, p, queue, k + 1, k + 1)
  {
    assert queue[..k + 1][..k] == queue[..k];
  }

  lemma FlushingEnds(s: State, id: Id, p: ArpPacket)
    requires id in s.table
    ensures var queue := s.table[id].queue; Flushing(s, id, p, queue, |queue|, |queue|) == Learn(s, id, p)
  {
    var queue := s.table[id].queue;
    assert queue[..|queue|] == queue && queue[|queue|..] == [];
  }

  /** The first packet for an unknown neighbour, and one more for a neighbour that waits */
  lemma ParkFirst(s: State, id: Id, packet: Packet)
    requires id !in s.table
    ensures Submit(Create(s, id), id, packet) ==
            State(s.table[id := Cell(NUD_INCOMPLETE, ZERO_ADDR, [packet])],
                  s.log + [SentArp(id.dev, BROADCAST_ADDR, Request(id, packet))])
  {
    hide Request;
    assert [] + [packet] == [packet];
    SetCellTwice(s, id, Cell(NUD_NONE, ZERO_ADDR, []), Cell(NUD_INCOMPLETE, ZERO_ADDR, [packet]));
  }

  lemma ParkNext(table: map<Id, Cell>, log: seq<Record>, id: Id, parked: seq<Packet>, packet: Packet)
    ensures var s := State(table[id := Cell(NUD_INCOMPLETE, ZERO_ADDR, parked)], log);
            Submit(Create(s, id), id, packet) ==
            State(table[id := Cell(NUD_INCOMPLETE, ZERO_ADDR, parked + [packet])], log)
  {
    SetCellTwice(State(table, log), id, Cell(NUD_INCOMPLETE, ZERO_ADDR, parked),
                 Cell(NUD_INCOMPLETE, ZERO_ADDR, parked + [packet]));
  }

  /** An ARP packet that passed the checks (`arp_process`). */
  function ArpInput(s: State, dev: Device, p: ArpPacket, local: bool): State {
    var id := Id(p.sip, dev);
    if p.op == ARPOP_REQUEST && local then
      Log(Learn(Create(s, id), id, p), SentArp(dev, p.sha, Reply(dev, p)))
    else Learn(s, id, p)
  }

  /** What can happen to the table: a route is bound to a neighbour, the IP layer outputs a packet on such
      a route, an ARP packet that passes the checks arrives. */
  datatype Event =
    | Bind(id: Id)
    | Output(id: Id, packet: Packet)
    | Arrive(dev: Device, arp: ArpPacket)

  /** `local` holds the addresses that `ip_route_input` accepts. */
  ghost function Step(local: iset<uint32>, s: State, ev: Event): State {
    match ev
    case Bind(id) => Create(s, id)
    case Output(id, packet) => Submit(Create(s, id), id, packet)
    case Arrive(dev, p) => ArpInput(s, dev, p, p.tip in local)
  }

  ghost function Run(local: iset<uint32>, evs: seq<Event>): State {
    if evs == [] then INIT else Step(local, Run(local, evs[..|evs| - 1]), evs[|evs| - 1])
  }

  // ---------- observations ----------

  /** The data packets handed to the device for a neighbour. */
  ghost function DataOf(log: seq<Record>, id: Id): seq<Packet> {
    if log == [] then []
    else
      var r := log[|log| - 1];
      DataOf(log[..|log| - 1], id) + if r.SentData? && r.id == id then [r.packet] else []
  }

  /** How often a neighbour was solicited. */
  ghost function Solicitations(log: seq<Record>, id: Id): nat {
    if log == [] then 0
    else
      var r := log[|log| - 1];
      Solicitations(log[..|log| - 1], id) +
      if r.SentArp? && r.arp.op == ARPOP_REQUEST && Id(r.arp.tip, r.dev) == id then 1 else 0
  }

  /** The hardware address in the latest accepted ARP packet from a neighbour. */
  ghost function LatestAddress(log: seq<Record>, id: Id): Option<Mac> {
    if log == [] then None
    else
      var r := log[|log| - 1];
      if r.Accepted? && r.id == id then Some(r.arp.sha) else LatestAddress(log[..|log| - 1], id)
  }

  ghost function QueueOf(s: State, id: Id): seq<Packet> {
    if id in s.table then s.table[id].queue else []
  }

  /** The packets submitted for a neighbour. */
  ghost function Submitted(evs: seq<Event>, id: Id): seq<Packet> {
    if evs == [] then []
    else
      var ev := evs[|evs| - 1];
      Submitted(evs[..|evs| - 1], id) + if ev.Output? && ev.id == id then [ev.packet] else []
  }

  /** Every data frame went to the address in the latest ARP packet accepted before it. */
  ghost predicate Safe(log: seq<Record>) {
    forall i :: 0 <= i < |log| && log[i].SentData? ==> LatestAddress(log[..i], log[i].id) == Some(log[i].ha)
  }

  /** The frame that a record put on the wire. */
  function FrameOf(r: Record): Bytes
    requires !r.Accepted?
  {
    match r
    case SentData(id, ha, packet) => EthFrame(ha, id.dev.devAddr, ETH_P_IP, packet)
    case SentArp(_, dest, arp) => EthFrame(dest, arp.sha, ETH_P_ARP, ArpBytes(arp))
  }

  /** The frames handed to the device, in order. */
  ghost function Wire(log: seq<Record>): seq<Bytes> {
    if log == [] then []
    else
      var r := log[|log| - 1];
      Wire(log[..|log| - 1]) + if r.Accepted? then [] else [FrameOf(r)]
  }

  /** The 42 bytes of an ARP frame with a one-byte operation: type ARP; Ethernet, IP, six, four, the operation; sender,
      target */
  lemma ArpFrameBytes(dev: Device, dest: Mac, p: ArpPacket, op: byte)
    requires p.op == op
    ensures FrameOf(SentArp(dev, dest, p)) ==
            dest + p.sha + [0x08, 0x06] + [0, 1, 8, 0, 6, 4, 0, op] + p.sha + Le32(p.sip) + p.tha + Le32(p.tip)
  {
    hide Le32;
    assert Be16(ETH_P_ARP) == [0x08, 0x06];
    assert ArpBytes(p) == [0, 1, 8, 0, 6, 4, 0, op] + p.sha + Le32(p.sip) + p.tha + Le32(p.tip);
  }

  lemma WireAppended(log: seq<Record>, r: Record)
    ensures Wire(log + [r]) == Wire(log) + if r.Accepted? then [] else [FrameOf(r)]
  {
    assert (log + [r])[..|log|] == log;
  }

  lemma FlushingStarts(s: State, id: Id, p: ArpPacket)
    requires id in s.table
    ensures var queue := s.table[id].queue; var f := Flushing(s, id, p, queue, 0, 0);
            f.table == s.table[id := Cell(NUD_REACHABLE, p.sha, queue)] && Wire(f.log) == Wire(s.log)
  {
    var queue := s.table[id].queue;
    assert queue[0..] == queue;
    WireAppended(s.log, Accepted(id, p));
  }

  // ---------- the invariant ----------

  ghost predicate CellInv(s: State, id: Id) {
    var latest, asked := LatestAddress(s.log, id), Solicitations(s.log, id);
    if id !in s.table || s.table[id].state == NUD_NONE then latest.None? && asked == 0 && QueueOf(s, id) == []
    else if s.table[id].state == NUD_INCOMPLETE then latest.None? && asked == 1
    else latest == Some(s.table[id].ha) && asked <= 1 && QueueOf(s, id) == []
  }

  ghost predicate Inv(s: State) {
    Safe(s.log) && forall id :: CellInv(s, id)
  }

  /** The observations after one more record. */
  lemma Appended(log: seq<Record>, r: Record, id: Id)
    ensures DataOf(log + [r], id) == DataOf(log, id) + if r.SentData? && r.id == id then [r.packet] else []
    ensures Solicitations(log + [r], id) == Solicitations(log, id) +
              if r.SentArp? && r.arp.op == ARPOP_REQUEST && Id(r.arp.tip, r.dev) == id then 1 else 0
    ensures LatestAddress(log + [r], id) == if r.Accepted? && r.id == id then Some(r.arp.sha) else LatestAddress(log, id)
  {
    assert (log + [r])[..|log|] == log;
  }

  lemma SafeAppended(log: seq<Record>, r: Record)
    requires Safe(log) && (r.SentData? ==> LatestAddress(log, r.id) == Some(r.ha))
    ensures Safe(log + [r])
  {
    var all := log + [r];
    forall i | 0 <= i < |all| && all[i].SentData?
      ensures LatestAddress(all[..i], all[i].id) == Some(all[i].ha)
    {
      assert all[..i] == log[..i];
      assert i == |log| ==> log[..i] == log;
    }
  }

  lemma {:induction false} Flushed(log: seq<Record>, id: Id, ha: Mac, queue: seq<Packet>, other: Id)
    ensures var after := Flush(log, id, ha, queue);
            && DataOf(after, other) == DataOf(log, other) + (if other == id then queue else [])
            && Solicitations(after, other) == Solicitations(log, other)
            && LatestAddress(after, other) == LatestAddress(log, other)
  {
    if queue != [] {
      var n := |queue| - 1;
      Flushed(log, id, ha, queue[..n], other);
      Appended(Flush(log, id, ha, queue[..n]), SentData(id, ha, queue[n]), other);
      assert queue[..n] + [queue[n]] == queue;
    }
  }

  lemma {:induction false} SafeFlushed(log: seq<Record>, id: Id, ha: Mac, queue: seq<Packet>)
    requires Safe(log) && LatestAddress(log, id) == Some(ha)
    ensures Safe(Flush(log, id, ha, queue))
  {
    if queue != [] {
      var n := |queue| - 1;
      SafeFlushed(log, id, ha, queue[..n]);
      Flushed(log, id, ha, queue[..n], id);
      SafeAppended(Flush(log, id, ha, queue[..n]), SentData(id, ha, queue[n]));
    }
  }

  // ---------- every operation keeps the invariant and accounts for every packet ----------

  /** Sent and parked packets of a neighbour, in the order they were submitted. */
  ghost function Accounted(s: State, id: Id): seq<Packet> {
    DataOf(s.log, id) + QueueOf(s, id)
  }

  lemma CreateKeeps(s: State, id: Id)
    requires Inv(s)
    ensures Inv(Create(s, id)) && forall other :: Accounted(Create(s, id), other) == Accounted(s, other)
  {
    var t := Create(s, id);
    forall other ensures CellInv(t, other) && Accounted(t, other) == Accounted(s, other) {
      assert CellInv(s, other);
    }
  }

  lemma SubmitKeepsCell(s: State, id: Id, packet: Packet, other: Id)
    requires id in s.table && CellInv(s, other)
    ensures CellInv(Submit(s, id, packet), other)
  {
    hide DataOf;
    hide Solicitations;
    hide LatestAddress;
    hide IpSaddr;
    if s.table[id].state == NUD_REACHABLE {
      Appended(s.log, SentData(id, s.table[id].ha, packet), other);
    } else if s.table[id].state == NUD_NONE {
      Appended(s.log, SentArp(id.dev, BROADCAST_ADDR, Request(id, packet)), other);
    }
  }

  lemma SubmitAccounts(s: State, id: Id, packet: Packet, other: Id)
    requires id in s.table && CellInv(s, id)
    ensures Accounted(Submit(s, id, packet), other) == Accounted(s, other) + if other == id then [packet] else []
  {
    hide DataOf;
    hide Solicitations;
    hide LatestAddress;
    hide IpSaddr;
    if s.table[id].state == NUD_REACHABLE {
      Appended(s.log, SentData(id, s.table[id].ha, packet), other);
    } else if s.table[id].state == NUD_NONE {
      Appended(s.log, SentArp(id.dev, BROADCAST_ADDR, Request(id, packet)), other);
    }
  }

  lemma SubmitKeeps(s: State, id: Id, packet: Packet)
    requires Inv(s) && id in s.table
    ensures Inv(Submit(s, id, packet))
    ensures forall other :: Accounted(Submit(s, id, packet), other) ==
                            Accounted(s, other) + if other == id then [packet] else []
  {
    assert CellInv(s, id);
    if s.table[id].state == NUD_REACHABLE {
      SafeAppended(s.log, SentData(id, s.table[id].ha, packet));
    } else {
      SafeAppended(s.log, SentArp(id.dev, BROADCAST_ADDR, Request(id, packet)));
    }
    var t := Submit(s, id, packet);
    forall other
      ensures CellInv(t, other) && Accounted(t, other) == Accounted(s, other) + if other == id then [packet] else []
    {
      SubmitKeepsCell(s, id, packet, other);
      SubmitAccounts(s, id, packet, other);
    }
  }

  lemma LearnKeepsCell(s: State, id: Id, p: ArpPacket, other: Id)
    requires id in s.table && CellInv(s, other)
    ensures CellInv(Learn(s, id, p), other)
  {
    hide DataOf;
    hide Solicitations;
    hide LatestAddress;
    hide Flush;
    Appended(s.log, Accepted(id, p), other);
    Flushed(s.log + [Accepted(id, p)], id, p.sha, s.table[id].queue, other);
  }

  lemma LearnAccounts(s: State, id: Id, p: ArpPacket, other: Id)
    requires id in s.table
    ensures Accounted(Learn(s, id, p), other) == Accounted(s, other)
  {
    hide DataOf;
    hide Solicitations;
    hide LatestAddress;
    hide Flush;
    Appended(s.log, Accepted(id, p), other);
    Flushed(s.log + [Accepted(id, p)], id, p.sha, s.table[id].queue, other);
  }

  lemma LearnKeeps(s: State, id: Id, p: ArpPacket)
    requires Inv(s)
    ensures Inv(Learn(s, id, p)) && forall other :: Accounted(Learn(s, id, p), other) == Accounted(s, other)
  {
    if id in s.table {
      SafeAppended(s.log, Accepted(id, p));
      Appended(s.log, Accepted(id, p), id);
      SafeFlushed(s.log + [Accepted(id, p)], id, p.sha, s.table[id].queue);
      forall other
        ensures CellInv(Learn(s, id, p), other) && Accounted(Learn(s, id, p), other) == Accounted(s, other)
      {
        LearnKeepsCell(s, id, p, other);
        LearnAccounts(s, id, p, other);
      }
    }
  }

  lemma LogArpKeeps(s: State, r: Record)
    requires Inv(s) && r.SentArp? && r.arp.op == ARPOP_REPLY
    ensures Inv(Log(s, r)) && forall other :: Accounted(Log(s, r), other) == Accounted(s, other)
  {
    SafeAppended(s.log, r);
    forall other ensures CellInv(Log(s, r), other) && Accounted(Log(s, r), other) == Accounted(s, other) {
      assert CellInv(s, other);
      Appended(s.log, r, other);
    }
  }

  lemma ArpInputKeeps(s: State, dev: Device, p: ArpPacket, local: bool)
    requires Inv(s)
    ensures Inv(ArpInput(s, dev, p, local))
    ensures forall other :: Accounted(ArpInput(s, dev, p, local), other) == Accounted(s, other)
  {
    var id := Id(p.sip, dev);
    if p.op == ARPOP_REQUEST && local {
      CreateKeeps(s, id);
      LearnKeeps(Create(s, id), id, p);
      LogArpKeeps(Learn(Create(s, id), id, p), SentArp(dev, p.sha, Reply(dev, p)));
    } else {
      LearnKeeps(s, id, p);
    }
  }

  lemma StepKeeps(local: iset<uint32>, s: State, ev: Event)
    requires Inv(s)
    ensures Inv(Step(local, s, ev))
    ensures forall id :: Accounted(Step(local, s, ev), id) ==
                         Accounted(s, id) + if ev.Output? && ev.id == id then [ev.packet] else []
  {
    match ev
    case Bind(id) => CreateKeeps(s, id);
    case Output(id, packet) => CreateKeeps(s, id); SubmitKeeps(Create(s, id), id, packet);
    case Arrive(dev, p) => ArpInputKeeps(s, dev, p, p.tip in local);
  }

  // ---------- what holds over every run ----------

  /** Conservation in order: sent packets followed by parked packets are the submitted packets. Nothing is
      lost, duplicated or reordered; and the invariant holds throughout. */
  lemma {:induction false} Conservation(local: iset<uint32>, evs: seq<Event>)
    ensures Inv(Run(local, evs))
    ensures forall id :: DataOf(Run(local, evs).log, id) + QueueOf(Run(local, evs), id) == Submitted(evs, id)
  {
    if evs != [] {
      var before := evs[..|evs| - 1];
      Conservation(local, before);
      StepKeeps(local, Run(local, before), evs[|evs| - 1]);
      forall id ensures Accounted(Run(local, evs), id) == Submitted(evs, id) {
        assert Accounted(Run(local, before), id) == Submitted(before, id);
      }
    }
  }

  /** Safety of resolution: in every run each data frame was sent after an ARP packet from that protocol
      address was accepted, to the hardware address in the latest one. */
  lemma ResolutionIsSafe(local: iset<uint32>, evs: seq<Event>, i: nat)
    requires i < |Run(local, evs).log| && Run(local, evs).log[i].SentData?
    ensures var log := Run(local, evs).log; LatestAddress(log[..i], log[i].id) == Some(log[i].ha)
  {
    Conservation(local, evs);
  }

  /** At most one solicitation is ever sent for a neighbour, packets wait only while its state is
      INCOMPLETE, and a reachable neighbour has the latest address accepted. */
  lemma SingleSolicitation(local: iset<uint32>, evs: seq<Event>, id: Id)
    ensures Solicitations(Run(local, evs).log, id) <= 1
    ensures var s := Run(local, evs);
            && (QueueOf(s, id) != [] ==> id in s.table && s.table[id].state == NUD_INCOMPLETE)
            && (id in s.table && s.table[id].state == NUD_REACHABLE ==> LatestAddress(s.log, id) == Some(s.table[id].ha))
  {
    Conservation(local, evs);
    assert CellInv(Run(local, evs), id);
  }

  /** No entry disappears and no state moves backwards. */
  ghost predicate Advances(s: State, t: State) {
    forall id :: id in s.table ==> id in t.table && s.table[id].state <= t.table[id].state
  }

  lemma {:induction false} StatesAdvance(local: iset<uint32>, evs: seq<Event>, n: nat)
    requires n <= |evs|
    ensures Advances(Run(local, evs[..n]), Run(local, evs))
    decreases |evs|
  {
    if n == |evs| {
      assert evs[..n] == evs;
    } else {
      var before := evs[..|evs| - 1];
      StatesAdvance(local, before, n);
      assert before[..n] == evs[..n];
      StepAdvances(local, Run(local, before), evs[|evs| - 1]);
    }
  }

  lemma StepAdvances(local: iset<uint32>, s: State, ev: Event)
    ensures Advances(s, Step(local, s, ev))
  {
  }

  /** What can bring a neighbour into the table: a route to it, or its request for a local address. */
  ghost predicate Introduces(local: iset<uint32>, ev: Event, id: Id) {
    match ev
    case Bind(k) => k == id
    case Output(k, _) => k == id
    case Arrive(dev, p) => p.op == ARPOP_REQUEST && Id(p.sip, dev) == id && p.tip in local
  }

  lemma {:induction false} OnlyIntroduced(local: iset<uint32>, evs: seq<Event>, id: Id)
    ensures id in Run(local, evs).table <==> exists i :: 0 <= i < |evs| && Introduces(local, evs[i], id)
  {
    if evs != [] {
      var n := |evs| - 1;
      var before := evs[..n];
      OnlyIntroduced(local, before, id);
      assert forall i :: 0 <= i < n ==> before[i] == evs[i];
      StepIntroduces(local, Run(local, before), evs[n], id);
      if id in Run(local, before).table {
        var i :| 0 <= i < n && Introduces(local, before[i], id);
        assert Introduces(local, evs[i], id);
      }
    }
  }

  lemma StepIntroduces(local: iset<uint32>, s: State, ev: Event, id: Id)
    ensures id in Step(local, s, ev).table <==> id in s.table || Introduces(local, ev, id)
  {
  }

  /** Nothing is accepted that did not arrive, and it is filed under its sender. */
  lemma {:induction false} AcceptedArrived(local: iset<uint32>, evs: seq<Event>, r: Record)
    requires r in Run(local, evs).log && r.Accepted?
    ensures r.id.addr == r.arp.sip && Arrive(r.id.dev, r.arp) in evs
  {
    if evs != [] {
      var before, ev := evs[..|evs| - 1], evs[|evs| - 1];
      if r in Run(local, before).log {
        AcceptedArrived(local, before, r);
      } else if ev.Arrive? {
        AcceptedByArpInput(Run(local, before), ev.dev, ev.arp, ev.arp.tip in local, r);
      }
    }
  }

  lemma {:induction false} FlushAddsData(log: seq<Record>, id: Id, ha: Mac, queue: seq<Packet>, r: Record)
    requires r in Flush(log, id, ha, queue) && r !in log
    ensures r.SentData?
  {
    if queue != [] && r in Flush(log, id, ha, queue[..|queue| - 1]) {
      FlushAddsData(log, id, ha, queue[..|queue| - 1], r);
    }
  }

  lemma AcceptedByArpInput(s: State, dev: Device, p: ArpPacket, local: bool, r: Record)
    requires r.Accepted? && r in ArpInput(s, dev, p, local).log && r !in s.log
    ensures r == Accepted(Id(p.sip, dev), p)
  {
    var id := Id(p.sip, dev);
    var c := if p.op == ARPOP_REQUEST && local then Create(s, id) else s;
    assert r in Learn(c, id, p).log;
    if r !in s.log + [Accepted(id, p)] {
      FlushAddsData(s.log + [Accepted(id, p)], id, p.sha, c.table[id].queue, r);
    }
  }

  // ---------- the latest address, by what arrived ----------

  /** An ARP packet from the neighbour, whatever its kind */
  ghost predicate Answers(ev: Event, id: Id) {
    ev.Arrive? && Id(ev.arp.sip, ev.dev) == id
  }

  /** Event `i` is the last ARP packet from the neighbour that came once the neighbour was known, be it by that very
      packet. Only the events count here, not what was made of them. */
  ghost predicate LastHeard(local: iset<uint32>, evs: seq<Event>, id: Id, i: nat) {
    && i < |evs| && Answers(evs[i], id)
    && (exists j :: 0 <= j <= i && Introduces(local, evs[j], id))
    && forall k :: i < k < |evs| ==> !Answers(evs[k], id)
  }

  /** The hardware address in that packet */
  ghost function Heard(local: iset<uint32>, evs: seq<Event>, id: Id): Option<Mac> {
    if evs == [] then None
    else if Answers(evs[|evs| - 1], id) && exists j :: 0 <= j < |evs| && Introduces(local, evs[j], id)
    then Some(evs[|evs| - 1].arp.sha)
    else Heard(local, evs[..|evs| - 1], id)
  }

  lemma {:induction false} HeardIsLast(local: iset<uint32>, evs: seq<Event>, id: Id)
    ensures Heard(local, evs, id).Some? ==>
              exists i: nat :: LastHeard(local, evs, id, i) && Heard(local, evs, id) == Some(evs[i].arp.sha)
    ensures Heard(local, evs, id).None? ==> forall i: nat :: !LastHeard(local, evs, id, i)
  {
    if evs != [] {
      var n := |evs| - 1;
      var before := evs[..n];
      HeardIsLast(local, before, id);
      assert forall k :: 0 <= k < n ==> before[k] == evs[k];
      if Answers(evs[n], id) && exists j :: 0 <= j < |evs| && Introduces(local, evs[j], id) {
        assert LastHeard(local, evs, id, n);
      } else if Heard(local, before, id).Some? {
        var i: nat :| LastHeard(local, before, id, i) && Heard(local, before, id) == Some(before[i].arp.sha);
        assert LastHeard(local, evs, id, i);
      } else {
        forall i: nat | LastHeard(local, evs, id, i) ensures false {
          assert LastHeard(local, before, id, i);
        }
      }
    }
  }

  /** Every ARP packet from a known neighbour is accepted: in every run the latest address accepted is the latest that
      arrived, a neighbour is reachable exactly if there is one, and that is the address it has. */
  lemma {:induction false} LatestArrived(local: iset<uint32>, evs: seq<Event>, id: Id)
    ensures var s := Run(local, evs);
            && LatestAddress(s.log, id) == Heard(local, evs, id)
            && (id in s.table && s.table[id].state == NUD_REACHABLE <==> Heard(local, evs, id).Some?)
            && (Heard(local, evs, id).Some? ==> s.table[id].ha == Heard(local, evs, id).value)
  {
    if evs != [] {
      var before, ev := evs[..|evs| - 1], evs[|evs| - 1];
      LatestArrived(local, before, id);
      OnlyIntroduced(local, evs, id);
      StepHears(local, Run(local, before), ev, id);
    }
    Conservation(local, evs);
    assert CellInv(Run(local, evs), id);
  }

  lemma StepHears(local: iset<uint32>, s: State, ev: Event, id: Id)
    ensures var t := Step(local, s, ev);
            LatestAddress(t.log, id) ==
            if Answers(ev, id) && id in t.table then Some(ev.arp.sha) else LatestAddress(s.log, id)
  {
    hide LatestAddress;
    hide Submit;
    hide Create;
    hide ArpInput;
    match ev
    case Bind(k) =>
      Created(s, k);
    case Output(k, packet) =>
      Created(s, k);
      SubmitHears(Create(s, k), k, packet, id);
    case Arrive(dev, p) =>
      ArpInputHears(s, dev, p, p.tip in local, id);
  }

  lemma Created(s: State, k: Id)
    ensures k in Create(s, k).table && Create(s, k).log == s.log
  {
  }

  lemma ArpInputHears(s: State, dev: Device, p: ArpPacket, local: bool, id: Id)
    ensures var t := ArpInput(s, dev, p, local);
            LatestAddress(t.log, id) == if Id(p.sip, dev) == id && id in t.table then Some(p.sha) else LatestAddress(s.log, id)
  {
    hide LatestAddress;
    hide Learn;
    hide Create;
    hide Reply;
    var k := Id(p.sip, dev);
    if p.op == ARPOP_REQUEST && local {
      Created(s, k);
      LearnHears(Create(s, k), k, p, id);
      Appended(Learn(Create(s, k), k, p).log, SentArp(dev, p.sha, Reply(dev, p)), id);
    } else {
      LearnHears(s, k, p, id);
    }
  }

  lemma SubmitHears(s: State, k: Id, packet: Packet, id: Id)
    requires k in s.table
    ensures LatestAddress(Submit(s, k, packet).log, id) == LatestAddress(s.log, id)
  {
    hide LatestAddress;
    hide Request;
    Appended(s.log, SentData(k, s.table[k].ha, packet), id);
    Appended(s.log, SentArp(k.dev, BROADCAST_ADDR, Request(k, packet)), id);
  }

  lemma LearnHears(s: State, k: Id, p: ArpPacket, id: Id)
    ensures LatestAddress(Learn(s, k, p).log, id) ==
            if k == id && k in s.table then Some(p.sha) else LatestAddress(s.log, id)
    ensures k in Learn(s, k, p).table <==> k in s.table
  {
    hide LatestAddress;
    hide Flush;
    if k in s.table {
      Appended(s.log, Accepted(k, p), id);
      Flushed(s.log + [Accepted(k, p)], k, p.sha, s.table[k].queue, id);
    }
  }

  /** Hence safety without reference to what was accepted: each data frame that an event causes to be sent goes to the
      address in the last ARP packet that arrived from the neighbour, up to and including that event. */
  lemma SentWhereHeard(local: iset<uint32>, evs: seq<Event>, i: nat)
    requires evs != []
    requires |Run(local, evs[..|evs| - 1]).log| <= i < |Run(local, evs).log| && Run(local, evs).log[i].SentData?
    ensures var r := Run(local, evs).log[i]; Heard(local, evs, r.id) == Some(r.ha)
  {
    var before, ev := evs[..|evs| - 1], evs[|evs| - 1];
    var s, t := Run(local, before), Run(local, evs);
    var id := t.log[i].id;
    StepSends(local, s, ev, i);
    LatestArrived(local, evs, id);
    LatestArrived(local, before, id);
    Conservation(local, before);
    assert CellInv(s, id);
  }

  /** A data record that a step adds is for the neighbour of the event, and has its address after the step. */
  lemma StepSends(local: iset<uint32>, s: State, ev: Event, i: nat)
    requires |s.log| <= i < |Step(local, s, ev).log| && Step(local, s, ev).log[i].SentData?
    ensures var t := Step(local, s, ev); var r := t.log[i];
            r.id in t.table && t.table[r.id].state == NUD_REACHABLE && t.table[r.id].ha == r.ha
  {
    hide IpSaddr;
    match ev
    case Bind(_) =>
    case Output(_, _) =>
    case Arrive(dev, p) =>
      var k := Id(p.sip, dev);
      var c := if p.op == ARPOP_REQUEST && p.tip in local then Create(s, k) else s;
      if k in c.table {
        FlushAt(s.log + [Accepted(k, p)], k, p.sha, c.table[k].queue, i);
      }
  }

  lemma {:induction false} FlushAt(log: seq<Record>, id: Id, ha: Mac, queue: seq<Packet>, i: nat)
    ensures var after := Flush(log, id, ha, queue);
            && |after| == |log| + |queue|
            && (i < |log| ==> after[i] == log[i])
            && (|log| <= i < |after| ==> after[i] == SentData(id, ha, queue[i - |log|]))
  {
    if queue != [] {
      FlushAt(log, id, ha, queue[..|queue| - 1], i);
    }
  }

  // ---------- what a lost answer costs ----------

  /** Liveness rests on that one solicitation being answered. As long as no ARP packet from an incomplete neighbour
      arrives, whatever else happens, it stays incomplete, is not asked for again and is sent nothing. */
  lemma {:induction false} StuckWithoutAnswer(local: iset<uint32>, evs: seq<Event>, n: nat, id: Id)
    requires n <= |evs|
    requires var s := Run(local, evs[..n]); id in s.table && s.table[id].state == NUD_INCOMPLETE
    requires forall i :: n <= i < |evs| && evs[i].Arrive? ==> Id(evs[i].arp.sip, evs[i].dev) != id
    ensures Stays(Run(local, evs[..n]), Run(local, evs), id)
    decreases |evs|
  {
    if n == |evs| {
      assert evs[..n] == evs;
    } else {
      var before := evs[..|evs| - 1];
      assert before[..n] == evs[..n];
      assert forall i :: 0 <= i < |before| ==> before[i] == evs[i];
      StuckWithoutAnswer(local, before, n, id);
      StepStaysIncomplete(local, Run(local, before), evs[|evs| - 1], id);
    }
  }

  /** Exactly: a neighbour that is incomplete at some point of a run is reachable at its end if and only if an ARP packet
      from it arrives in between; and then everything ever submitted for it has been sent. */
  lemma ResolvedIffAnswered(local: iset<uint32>, evs: seq<Event>, n: nat, id: Id)
    requires n <= |evs|
    requires var s := Run(local, evs[..n]); id in s.table && s.table[id].state == NUD_INCOMPLETE
    ensures var s := Run(local, evs);
            && id in s.table
            && (s.table[id].state == NUD_REACHABLE <==> exists i :: n <= i < |evs| && Answers(evs[i], id))
            && (s.table[id].state == NUD_REACHABLE ==> DataOf(s.log, id) == Submitted(evs, id))
  {
    hide DataOf;
    hide Submitted;
    StatesAdvance(local, evs, n);
    if i :| n <= i < |evs| && Answers(evs[i], id) {
      AnswerResolves(local, evs, n, i, id);
    } else {
      StuckWithoutAnswer(local, evs, n, id);
    }
    Conservation(local, evs);
    assert CellInv(Run(local, evs), id);
  }

  lemma AnswerResolves(local: iset<uint32>, evs: seq<Event>, n: nat, i: nat, id: Id)
    requires n <= i < |evs| && Answers(evs[i], id) && id in Run(local, evs[..n]).table
    ensures var s := Run(local, evs); id in s.table && s.table[id].state == NUD_REACHABLE
  {
    hide Step;
    var before, after := evs[..i], evs[..i + 1];
    StatesAdvance(local, before, n);
    assert before[..n] == evs[..n] && after[..i] == before;
    AnswerAccepted(local, Run(local, before), evs[i], id);
    assert Run(local, after) == Step(local, Run(local, before), evs[i]);
    StatesAdvance(local, evs, i + 1);
  }

  lemma AnswerAccepted(local: iset<uint32>, s: State, ev: Event, id: Id)
    requires Answers(ev, id) && id in s.table
    ensures var t := Step(local, s, ev); id in t.table && t.table[id].state == NUD_REACHABLE
  {
    hide Flush;
    hide Reply;
  }

  /** The neighbour is as incomplete in `t` as in `s`. */
  ghost predicate Stays(s: State, t: State, id: Id) {
    && id in t.table && t.table[id].state == NUD_INCOMPLETE
    && DataOf(t.log, id) == DataOf(s.log, id) && Solicitations(t.log, id) == Solicitations(s.log, id)
  }

  lemma SubmitStays(s: State, k: Id, packet: Packet, id: Id)
    requires k in s.table && id in s.table && s.table[id].state == NUD_INCOMPLETE
    ensures Stays(s, Submit(s, k, packet), id)
  {
    hide DataOf;
    hide Solicitations;
    hide IpSaddr;
    if s.table[k].state == NUD_REACHABLE {
      Appended(s.log, SentData(k, s.table[k].ha, packet), id);
    } else if s.table[k].state == NUD_NONE {
      Appended(s.log, SentArp(k.dev, BROADCAST_ADDR, Request(k, packet)), id);
    }
  }

  lemma LearnStays(s: State, k: Id, p: ArpPacket, id: Id)
    requires k != id && id in s.table && s.table[id].state == NUD_INCOMPLETE
    ensures Stays(s, Learn(s, k, p), id)
  {
    if k in s.table {
      Appended(s.log, Accepted(k, p), id);
      Flushed(s.log + [Accepted(k, p)], k, p.sha, s.table[k].queue, id);
    }
  }

  lemma StepStaysIncomplete(local: iset<uint32>, s: State, ev: Event, id: Id)
    requires id in s.table && s.table[id].state == NUD_INCOMPLETE
    requires ev.Arrive? ==> Id(ev.arp.sip, ev.dev) != id
    ensures Stays(s, Step(local, s, ev), id)
  {
    hide Submit;
    hide Learn;
    hide DataOf;
    hide Solicitations;
    match ev
    case Bind(_) =>
    case Output(k, packet) =>
      SubmitStays(Create(s, k), k, packet, id);
    case Arrive(dev, p) =>
      var k := Id(p.sip, dev);
      LearnStays(s, k, p, id);
      LearnStays(Create(s, k), k, p, id);
      Appended(Learn(Create(s, k), k, p).log, SentArp(dev, p.sha, Reply(dev, p)), id);
  }

  // ---------- a waiting neighbour has been asked for ----------

  /** An incomplete neighbour has packets waiting, and the request for it went out for the first of them. */
  ghost predicate Solicited(s: State, id: Id) {
    id in s.table && s.table[id].state == NUD_INCOMPLETE ==>
      var queue := s.table[id].queue;
      queue != [] && SentArp(id.dev, BROADCAST_ADDR, Request(id, queue[0])) in s.log
  }

  lemma {:induction false} FlushKeeps(log: seq<Record>, id: Id, ha: Mac, queue: seq<Packet>, r: Record)
    requires r in log
    ensures r in Flush(log, id, ha, queue)
  {
    if queue != [] {
      FlushKeeps(log, id, ha, queue[..|queue| - 1], r);
    }
  }

  lemma LearnSolicited(s: State, k: Id, p: ArpPacket, id: Id)
    requires Solicited(s, id)
    ensures Solicited(Learn(s, k, p), id)
  {
    hide Request;
    hide Flush;
    if k in s.table && k != id && id in s.table && s.table[id].state == NUD_INCOMPLETE {
      var r := SentArp(id.dev, BROADCAST_ADDR, Request(id, s.table[id].queue[0]));
      FlushKeeps(s.log + [Accepted(k, p)], k, p.sha, s.table[k].queue, r);
    }
  }

  lemma SubmitSolicited(s: State, k: Id, packet: Packet, id: Id)
    requires Solicited(s, id) && CellInv(s, id)
    ensures Solicited(Submit(s, k, packet), id)
  {
    hide Request;
  }

  lemma {:induction false} IncompleteWasSolicited(local: iset<uint32>, evs: seq<Event>, id: Id)
    ensures Solicited(Run(local, evs), id)
  {
    hide Request;
    hide Learn;
    hide Submit;
    if evs != [] {
      var before := evs[..|evs| - 1];
      IncompleteWasSolicited(local, before, id);
      Conservation(local, before);
      var s := Run(local, before);
      assert CellInv(s, id);
      match evs[|evs| - 1]
      case Bind(_) =>
      case Output(k, packet) =>
        SubmitSolicited(Create(s, k), k, packet, id);
      case Arrive(dev, p) =>
        LearnSolicited(s, Id(p.sip, dev), p, id);
        LearnSolicited(Create(s, Id(p.sip, dev)), Id(p.sip, dev), p, id);
    }
  }

  // ---------- everything by what happened ----------

  lemma {:induction false} NoDataUnheard(log: seq<Record>, id: Id)
    requires Safe(log) && LatestAddress(log, id).None?
    ensures DataOf(log, id) == []
  {
    if log != [] {
      var n := |log| - 1;
      var before := log[..n];
      assert forall i :: 0 <= i < n ==> before[..i] == log[..i];
      assert log[n].SentData? ==> LatestAddress(log[..n], log[n].id) == Some(log[n].ha);
      NoDataUnheard(before, id);
    }
  }

  /** The table, the queues and the data sent are determined by the events. A neighbour is known exactly if it was
      introduced. As long as it has not been heard, everything submitted for it is parked, and it is INCOMPLETE if that is
      anything, NONE if it is not. Once it has been heard it is REACHABLE, at the address last heard, and everything
      submitted for it has been sent. */
  lemma ByHistory(local: iset<uint32>, evs: seq<Event>, id: Id)
    ensures var s, heard, submitted := Run(local, evs), Heard(local, evs, id), Submitted(evs, id);
            && (id in s.table <==> exists i :: 0 <= i < |evs| && Introduces(local, evs[i], id))
            && (heard.None? ==> DataOf(s.log, id) == [] && QueueOf(s, id) == submitted)
            && (heard.Some? ==> DataOf(s.log, id) == submitted && QueueOf(s, id) == [])
            && (id in s.table ==>
                 && s.table[id].state == (if heard.Some? then NUD_REACHABLE else if submitted != [] then NUD_INCOMPLETE else NUD_NONE)
                 && (heard.Some? ==> s.table[id].ha == heard.value))
            && (heard.Some? || submitted != [] ==> id in s.table)
  {
    hide Run;
    hide DataOf;
    hide Submitted;
    hide Heard;
    var s := Run(local, evs);
    Conservation(local, evs);
    assert CellInv(s, id);
    LatestArrived(local, evs, id);
    OnlyIntroduced(local, evs, id);
    IncompleteWasSolicited(local, evs, id);
    if Heard(local, evs, id).None? {
      NoDataUnheard(s.log, id);
    }
    assert DataOf(s.log, id) + QueueOf(s, id) == Submitted(evs, id);
  }

  /** The requests sent for a neighbour, and the replies sent */
  ghost function RequestsFor(log: seq<Record>, id: Id): seq<Record> {
    if log == [] then []
    else
      var r := log[|log| - 1];
      RequestsFor(log[..|log| - 1], id) +
      if r.SentArp? && r.arp.op == ARPOP_REQUEST && Id(r.arp.tip, r.dev) == id then [r] else []
  }

  ghost function Replies(log: seq<Record>): seq<Record> {
    if log == [] then []
    else
      var r := log[|log| - 1];
      Replies(log[..|log| - 1]) + if r.SentArp? && r.arp.op != ARPOP_REQUEST then [r] else []
  }

  /** The requests there ought to be: one, on behalf of the first packet submitted, unless the neighbour had been heard by
      then. */
  ghost function DueRequests(local: iset<uint32>, evs: seq<Event>, id: Id): seq<Record> {
    if evs == [] then []
    else
      var before, ev := evs[..|evs| - 1], evs[|evs| - 1];
      DueRequests(local, before, id) +
      if ev.Output? && ev.id == id && Submitted(before, id) == [] && Heard(local, before, id).None?
      then [SentArp(id.dev, BROADCAST_ADDR, ArpPacket(1, id.dev.devAddr, IpSaddr(ev.packet), ZERO_ADDR, id.addr))]
      else []
  }

  /** The replies there ought to be: one for every request for an address of this host, back to the asker */
  ghost function DueReplies(local: iset<uint32>, evs: seq<Event>): seq<Record> {
    if evs == [] then []
    else
      var ev := evs[|evs| - 1];
      DueReplies(local, evs[..|evs| - 1]) +
      if ev.Arrive? && ev.arp.op == 1 && ev.arp.tip in local
      then [SentArp(ev.dev, ev.arp.sha, ArpPacket(2, ev.dev.devAddr, ev.arp.tip, ev.arp.sha, ev.arp.sip))]
      else []
  }

  lemma ArpAppended(log: seq<Record>, r: Record, id: Id)
    ensures RequestsFor(log + [r], id) == RequestsFor(log, id) +
              if r.SentArp? && r.arp.op == ARPOP_REQUEST && Id(r.arp.tip, r.dev) == id then [r] else []
    ensures Replies(log + [r]) == Replies(log) + if r.SentArp? && r.arp.op != ARPOP_REQUEST then [r] else []
  {
    assert (log + [r])[..|log|] == log;
  }

  lemma {:induction false} ArpFlushed(log: seq<Record>, id: Id, ha: Mac, queue: seq<Packet>, other: Id)
    ensures var after := Flush(log, id, ha, queue);
            RequestsFor(after, other) == RequestsFor(log, other) && Replies(after) == Replies(log)
  {
    if queue != [] {
      var n := |queue| - 1;
      ArpFlushed(log, id, ha, queue[..n], other);
      ArpAppended(Flush(log, id, ha, queue[..n]), SentData(id, ha, queue[n]), other);
    }
  }

  lemma LearnSendsNoArp(s: State, k: Id, p: ArpPacket, id: Id)
    ensures RequestsFor(Learn(s, k, p).log, id) == RequestsFor(s.log, id) && Replies(Learn(s, k, p).log) == Replies(s.log)
  {
    hide RequestsFor;
    hide Replies;
    if k in s.table {
      ArpAppended(s.log, Accepted(k, p), id);
      ArpFlushed(s.log + [Accepted(k, p)], k, p.sha, s.table[k].queue, id);
    }
  }

  lemma SubmitSendsArp(s: State, k: Id, packet: Packet, id: Id)
    requires k in s.table
    ensures RequestsFor(Submit(s, k, packet).log, id) == RequestsFor(s.log, id) +
              if k == id && s.table[k].state == NUD_NONE
              then [SentArp(id.dev, BROADCAST_ADDR, ArpPacket(1, id.dev.devAddr, IpSaddr(packet), ZERO_ADDR, id.addr))] else []
    ensures Replies(Submit(s, k, packet).log) == Replies(s.log)
  {
    hide RequestsFor;
    hide Replies;
    hide IpSaddr;
    ArpAppended(s.log, SentData(k, s.table[k].ha, packet), id);
    ArpAppended(s.log, SentArp(k.dev, BROADCAST_ADDR, Request(k, packet)), id);
  }

  /** The ARP frames sent are determined by the events as well: exactly the requests and replies that are due, in order. */
  lemma {:induction false} ArpByHistory(local: iset<uint32>, evs: seq<Event>, id: Id)
    ensures RequestsFor(Run(local, evs).log, id) == DueRequests(local, evs, id)
    ensures Replies(Run(local, evs).log) == DueReplies(local, evs)
  {
    hide RequestsFor;
    hide Replies;
    hide Submit;
    hide Learn;
    hide IpSaddr;
    hide Heard;
    hide Submitted;
    if evs == [] {
      NoArpYet(id);
    } else {
      var before, ev := evs[..|evs| - 1], evs[|evs| - 1];
      var s := Run(local, before);
      ArpByHistory(local, before, id);
      match ev
      case Bind(_) =>
      case Output(k, packet) =>
        ByHistory(local, before, k);
        SubmitSendsArp(Create(s, k), k, packet, id);
      case Arrive(dev, p) =>
        var k := Id(p.sip, dev);
        LearnSendsNoArp(s, k, p, id);
        LearnSendsNoArp(Create(s, k), k, p, id);
        ArpAppended(Learn(Create(s, k), k, p).log, SentArp(dev, p.sha, Reply(dev, p)), id);
    }
  }

  lemma NoArpYet(id: Id)
    ensures RequestsFor([], id) == [] && Replies([]) == []
  {
  }
}

/** The local and main routing tables and how interface addresses fill them (ipv4/fib_frontend.c). */
module FibFrontend {
  import opened Words
  import opened Bits
  import opened Wrappers
  import opened Ethernet
  import opened Fib

  const RTM_NEWROUTE: int := 24
  const NETDEV_UP: int := 1

  /** `struct in_ifaddr` */
  datatype Ifaddr = Ifaddr(address: uint32, mask: uint32, prefixlen: byte, dev: Device)

  function Prefix(ifa: Ifaddr): uint32 {
    Bitwise32(And, ifa.address, ifa.mask)
  }

  function Broadcast(ifa: Ifaddr): uint32 {
    Bitwise32(Or, Prefix(ifa), Not32(ifa.mask))
  }

  function RouteVia(ifa: Ifaddr, rtype: byte, dst: uint32, len: byte): Config {
    Config(rtype, dst, len, ifa.address, ifa.dev)
  }

  // ---------- what a list of interface addresses puts into the tables ----------

  ghost function LocalRoutes(ifa: Ifaddr): seq<Config> {
    [RouteVia(ifa, RTN_LOCAL, ifa.address, 32)] +
    if ifa.prefixlen < 31 then
      [RouteVia(ifa, RTN_BROADCAST, Prefix(ifa), 32), RouteVia(ifa, RTN_BROADCAST, Broadcast(ifa), 32)]
    else []
  }

  ghost function MainRoutes(ifa: Ifaddr): seq<Config> {
    if ifa.prefixlen <= 32 then [RouteVia(ifa, RTN_UNICAST, Prefix(ifa), ifa.prefixlen)] else []
  }

  ghost function LocalTable(ifas: seq<Ifaddr>): seq<Config> {
    if ifas == [] then [] else LocalTable(ifas[..|ifas| - 1]) + LocalRoutes(ifas[|ifas| - 1])
  }

  ghost function MainTable(ifas: seq<Ifaddr>): seq<Config> {
    if ifas == [] then [] else MainTable(ifas[..|ifas| - 1]) + MainRoutes(ifas[|ifas| - 1])
  }

  /** `fib_lookup` on the two tables. */
  ghost function Lookup(local: seq<Config>, main: seq<Config>, d: uint32): Option<Config> {
    if Best(local, d).Some? then Best(local, d) else Best(main, d)
  }

  /** The addresses `ip_route_input` accepts: those whose route is of type LOCAL. */
  ghost predicate IsLocalAddr(local: seq<Config>, main: seq<Config>, d: uint32) {
    var best := Lookup(local, main, d);
    best.Some? && best.value.rtype == RTN_LOCAL
  }

  class Tables {
    const local: FibTable
    const main: FibTable

    ghost predicate Valid()
      reads this, local, local.zones, main, main.zones
    {
      local != main && local.zones != main.zones && local.Valid() && main.Valid()
    }

    /** `ip_fib_init` */
    constructor ()
      ensures Valid() && fresh(local) && fresh(local.zones) && fresh(main) && fresh(main.zones)
      ensures local.routes == [] && main.routes == []
    {
      local := new FibTable();
      main := new FibTable();
    }

    /** `fib_magic`: a new route goes to the main table if it is unicast, else to the local table. */
    method FibMagic(cmd: int, rtype: byte, dst: uint32, dstLen: byte, ifa: Ifaddr)
      requires Valid() && dstLen != 0
      modifies local, local.zones, main, main.zones
      ensures Valid()
      ensures var added := if cmd == RTM_NEWROUTE && dstLen <= 32 then [RouteVia(ifa, rtype, dst, dstLen)] else [];
              && main.routes == old(main.routes) + (if rtype == RTN_UNICAST then added else [])
              && local.routes == old(local.routes) + (if rtype == RTN_UNICAST then [] else added)
    {
      var tb := if rtype == RTN_UNICAST then main else local;
      if cmd == RTM_NEWROUTE {
        var _ := tb.Insert(RouteVia(ifa, rtype, dst, dstLen));
      }
    }

    /** `fib_add_ifaddr` */
    method FibAddIfaddr(ifa: Ifaddr)
      requires Valid() && ifa.prefixlen != 0
      modifies local, local.zones, main, main.zones
      ensures Valid()
      ensures local.routes == old(local.routes) + LocalRoutes(ifa)
      ensures main.routes == old(main.routes) + MainRoutes(ifa)
    {
      var mask, addr := ifa.mask, ifa.address;
      var prefix := Bitwise32(And, addr, mask);
      FibMagic(RTM_NEWROUTE, RTN_LOCAL, addr, 32, ifa);
      FibMagic(RTM_NEWROUTE, RTN_UNICAST, prefix, ifa.prefixlen, ifa);
      if ifa.prefixlen < 31 {
        FibMagic(RTM_NEWROUTE, RTN_BROADCAST, prefix, 32, ifa);
        FibMagic(RTM_NEWROUTE, RTN_BROADCAST, Bitwise32(Or, prefix, Not32(mask)), 32, ifa);
      }
    }

    /** `fib_netdev_event`: `None` is a device without Internet configuration. */
    method FibNetdevEvent(event: int, ifaList: Option<seq<Ifaddr>>) returns (err: int)
      requires Valid()
      requires ifaList.Some? ==> forall i :: 0 <= i < |ifaList.value| ==> ifaList.value[i].prefixlen != 0
      modifies local, local.zones, main, main.zones
      ensures Valid()
      ensures err == if ifaList.None? then -1 else 0
      ensures var ifas := if ifaList.Some? && event == NETDEV_UP then ifaList.value else [];
              local.routes == old(local.routes) + LocalTable(ifas) && main.routes == old(main.routes) + MainTable(ifas)
    {
      hide Tables.Valid;
      hide LocalRoutes;
      hide MainRoutes;
      if ifaList.None? {
        return -1;
      }
      var ifas := ifaList.value;
      if event == NETDEV_UP {
        var i := 0;
        while i < |ifas|
          invariant i <= |ifas| && Valid()
          invariant local.routes == old(local.routes) + LocalTable(ifas[..i])
          invariant main.routes == old(main.routes) + MainTable(ifas[..i])
        {
          FibAddIfaddr(ifas[i]);
          assert ifas[..i + 1][..i] == ifas[..i];
          i := i + 1;
        }
        assert ifas[..i] == ifas;
      }
      return 0;
    }

    /** `fib_lookup`: the local table first, then the main table. */
    method FibLookup(d: uint32) returns (res: Option<Result>)
      requires Valid()
      ensures res == match Lookup(local.routes, main.routes, d) { case None => None case Some(c) => Some(ResultFor(c)) }
    {
      res := local.Lookup(d);
      if res.None? {
        res := main.Lookup(d);
      }
    }
  }

  // ---------- two tables act as one ----------

  ghost predicate HostRoutes(routes: seq<Config>) {
    forall i :: 0 <= i < |routes| ==> routes[i].dstLen == 32
  }

  /** Every route that interface addresses put into the local table is a host route. */
  lemma {:induction false} LocalTableHostRoutes(ifas: seq<Ifaddr>)
    ensures HostRoutes(LocalTable(ifas))
  {
    if ifas != [] {
      LocalTableHostRoutes(ifas[..|ifas| - 1]);
    }
  }

  /** With host routes only in the local table, looking there first is a single longest-prefix match over
      both tables in which the local table wins ties. */
  lemma {:induction false} TwoTablesActAsOne(local: seq<Config>, main: seq<Config>, d: uint32)
    requires HostRoutes(local)
    ensures Lookup(local, main, d) == Best(main + local, d)
  {
    BestHasLength(main, d);
    if local == [] {
      assert main + local == main;
    } else {
      var n := |local| - 1;
      TwoTablesActAsOne(local[..n], main, d);
      assert (main + local)[..|main + local| - 1] == main + local[..n];
      BestHasLength(local[..n], d);
    }
  }

  // ---------- how destinations are classified ----------

  /** The mask of every address is the one its prefix length denotes. */
  ghost predicate Consistent(ifas: seq<Ifaddr>) {
    forall i :: 0 <= i < |ifas| ==> 1 <= ifas[i].prefixlen <= 32 && ifas[i].mask == InetMakeMask(ifas[i].prefixlen)
  }

  /** `d` is the all-zeros or all-ones address of an interface's network, where these have a meaning. */
  ghost predicate IsBroadcastOf(ifa: Ifaddr, d: uint32) {
    ifa.prefixlen < 31 && (PrefixThen(d, ifa.address, ifa.prefixlen, 0) || PrefixThen(d, ifa.address, ifa.prefixlen, 1))
  }

  ghost predicate OnLink(ifa: Ifaddr, d: uint32) {
    ifa.prefixlen <= 32 && LeadingBits(d, ifa.prefixlen) == LeadingBits(ifa.address, ifa.prefixlen)
  }

  /** How a destination relates to one interface address. */
  datatype Relation = Relation(own: bool, broadcast: bool, onLink: bool)

  ghost function RelationTo(ifa: Ifaddr, d: uint32): Relation {
    Relation(ifa.address == d, IsBroadcastOf(ifa, d), OnLink(ifa, d))
  }

  ghost function Relations(ifas: seq<Ifaddr>, d: uint32): (rs: seq<Relation>)
    ensures |rs| == |ifas| && forall i :: 0 <= i < |ifas| ==> rs[i] == RelationTo(ifas[i], d)
  {
    seq(|ifas|, i requires 0 <= i < |ifas| => RelationTo(ifas[i], d))
  }

  /** Some address is the destination itself, with no broadcast entry added with it or after it. */
  ghost predicate IsLocal(rs: seq<Relation>) {
    exists i :: 0 <= i < |rs| && rs[i].own && forall j :: i <= j < |rs| ==> !rs[j].broadcast
  }

  /** Some address has the destination as broadcast address, and no later address is the destination. */
  ghost predicate IsBroadcast(rs: seq<Relation>) {
    exists i :: 0 <= i < |rs| && rs[i].broadcast && forall j :: i < j < |rs| ==> !rs[j].own
  }

  ghost predicate IsOnLink(rs: seq<Relation>) {
    exists i :: 0 <= i < |rs| && rs[i].onLink
  }

  lemma LastAddressDecides(rs: seq<Relation>, r: Relation)
    ensures if r.broadcast then IsBroadcast(rs + [r]) && !IsLocal(rs + [r])
            else if r.own then IsLocal(rs + [r]) && !IsBroadcast(rs + [r])
            else (IsLocal(rs + [r]) <==> IsLocal(rs)) && (IsBroadcast(rs + [r]) <==> IsBroadcast(rs))
  {
    var all, n := rs + [r], |rs|;
    assert all[n] == r;
    if !r.broadcast && !r.own {
      UnrelatedAddress(rs, r);
    }
  }

  lemma UnrelatedAddress(rs: seq<Relation>, r: Relation)
    requires !r.broadcast && !r.own
    ensures (IsLocal(rs + [r]) <==> IsLocal(rs)) && (IsBroadcast(rs + [r]) <==> IsBroadcast(rs))
  {
    var all, n := rs + [r], |rs|;
    assert all[n] == r && forall i :: 0 <= i < n ==> all[i] == rs[i];
    if IsLocal(rs) {
      var i :| 0 <= i < n && rs[i].own && forall j :: i <= j < n ==> !rs[j].broadcast;
      assert all[i].own;
    }
    if IsBroadcast(rs) {
      var i :| 0 <= i < n && rs[i].broadcast && forall j :: i < j < n ==> !rs[j].own;
      assert all[i].broadcast;
    }
  }

  lemma LastAddressLinks(rs: seq<Relation>, r: Relation)
    ensures IsOnLink(rs + [r]) <==> IsOnLink(rs) || r.onLink
  {
    var all, n := rs + [r], |rs|;
    assert all[n] == r;
    if IsOnLink(rs) {
      var i :| 0 <= i < n && rs[i].onLink;
      assert all[i].onLink;
    }
  }

  lemma RelationsSplit(ifas: seq<Ifaddr>, d: uint32)
    requires ifas != []
    ensures var n := |ifas| - 1; Relations(ifas, d) == Relations(ifas[..n], d) + [RelationTo(ifas[n], d)]
  {
  }

  lemma HostRouteCovers(r: Config, d: uint32)
    requires r.dstLen == 32
    ensures Covers(r, d) <==> r.dst == d
  {
    SameLeadingBitsIff(r.dst, d, 32);
    if Covers(r, d) {
      AddrBitsDetermine(r.dst, d);
    }
  }

  /** Appending routes of one host: the last one that is for `d` wins. */
  lemma BestAppend(routes: seq<Config>, r: Config, d: uint32)
    requires r.dstLen == 32
    ensures Best(routes + [r], d) == if r.dst == d then Some(r) else Best(routes, d)
  {
    assert (routes + [r])[..|routes|] == routes;
    HostRouteCovers(r, d);
    BestHasLength(routes, d);
  }

  lemma BestLocalRoutes(routes: seq<Config>, ifa: Ifaddr, d: uint32)
    ensures var best := Best(routes + LocalRoutes(ifa), d);
            if ifa.prefixlen < 31 && (d == Prefix(ifa) || d == Broadcast(ifa))
            then best.Some? && best.value.rtype == RTN_BROADCAST
            else if ifa.address == d then best.Some? && best.value.rtype == RTN_LOCAL
            else best == Best(routes, d)
  {
    var own, net, bcast := RouteVia(ifa, RTN_LOCAL, ifa.address, 32),
      RouteVia(ifa, RTN_BROADCAST, Prefix(ifa), 32), RouteVia(ifa, RTN_BROADCAST, Broadcast(ifa), 32);
    BestAppend(routes, own, d);
    if ifa.prefixlen < 31 {
      BestAppend(routes + [own], net, d);
      BestAppend(routes + [own] + [net], bcast, d);
      assert routes + LocalRoutes(ifa) == routes + [own] + [net] + [bcast];
    }
  }

  /** What the local table says of a destination, for any list of interface addresses. */
  lemma {:induction false} LocalTableClassifies(ifas: seq<Ifaddr>, d: uint32)
    requires Consistent(ifas)
    ensures var best := Best(LocalTable(ifas), d);
            && (best.Some? && best.value.rtype == RTN_LOCAL <==> IsLocal(Relations(ifas, d)))
            && (best.Some? && best.value.rtype == RTN_BROADCAST <==> IsBroadcast(Relations(ifas, d)))
            && (best.Some? ==> best.value.rtype == RTN_LOCAL || best.value.rtype == RTN_BROADCAST)
  {
    if ifas != [] {
      var n := |ifas| - 1;
      var older, last := ifas[..n], ifas[n];
      LocalTableClassifies(older, d);
      BestLocalRoutes(LocalTable(older), last, d);
      InetMakeMaskIsMask(last.prefixlen);
      NetworkAddress(d, last.address, last.mask, last.prefixlen);
      BroadcastAddress(d, last.address, last.mask, last.prefixlen);
      RelationsSplit(ifas, d);
      LastAddressDecides(Relations(older, d), RelationTo(last, d));
    }
  }

  lemma {:induction false} MainTableClassifies(ifas: seq<Ifaddr>, d: uint32)
    requires Consistent(ifas)
    ensures Best(MainTable(ifas), d).Some? <==> IsOnLink(Relations(ifas, d))
    ensures Best(MainTable(ifas), d).Some? ==> Best(MainTable(ifas), d).value.rtype == RTN_UNICAST
  {
    if ifas != [] {
      var n := |ifas| - 1;
      var older, last := ifas[..n], ifas[n];
      MainTableClassifies(older, d);
      BestMainRoute(MainTable(older), last, d);
      RelationsSplit(ifas, d);
      LastAddressLinks(Relations(older, d), RelationTo(last, d));
    }
  }

  lemma BestMainRoute(routes: seq<Config>, ifa: Ifaddr, d: uint32)
    requires 1 <= ifa.prefixlen <= 32 && ifa.mask == InetMakeMask(ifa.prefixlen)
    ensures var best := Best(routes + MainRoutes(ifa), d);
            && (best.Some? <==> Best(routes, d).Some? || OnLink(ifa, d))
            && (best.Some? ==> best == Best(routes, d) || best.value.rtype == RTN_UNICAST)
  {
    var added := MainRoutes(ifa)[0];
    assert routes + MainRoutes(ifa) == routes + [added] && (routes + [added])[..|routes|] == routes;
    PrefixRouteCovers(ifa, d);
  }

  lemma PrefixRouteCovers(ifa: Ifaddr, d: uint32)
    requires 1 <= ifa.prefixlen <= 32 && ifa.mask == InetMakeMask(ifa.prefixlen)
    ensures Covers(MainRoutes(ifa)[0], d) <==> OnLink(ifa, d)
  {
    InetMakeMaskIsMask(ifa.prefixlen);
    MaskedBits(ifa.address, ifa.mask, ifa.prefixlen);
    SameLeadingBitsIff(Prefix(ifa), ifa.address, ifa.prefixlen);
  }

  /** The type of the route to `d` after `NETDEV_UP`; `None` if there is no route. */
  ghost function TypeOf(ifas: seq<Ifaddr>, d: uint32): Option<byte> {
    match Lookup(LocalTable(ifas), MainTable(ifas), d)
    case None => None
    case Some(c) => Some(c.rtype)
  }

  /** How every destination is classified, exactly: where an interface address is also a network or
      broadcast address, the entry added last decides. */
  lemma InterfaceClassification(ifas: seq<Ifaddr>, d: uint32)
    requires Consistent(ifas)
    ensures TypeOf(ifas, d) == Some(RTN_LOCAL) <==> IsLocal(Relations(ifas, d))
    ensures TypeOf(ifas, d) == Some(RTN_BROADCAST) <==> IsBroadcast(Relations(ifas, d))
    ensures TypeOf(ifas, d) == Some(RTN_UNICAST) <==>
              !IsLocal(Relations(ifas, d)) && !IsBroadcast(Relations(ifas, d)) && IsOnLink(Relations(ifas, d))
    ensures TypeOf(ifas, d).None? <==> !IsLocal(Relations(ifas, d)) && !IsBroadcast(Relations(ifas, d)) && !IsOnLink(Relations(ifas, d))
  {
    LocalTableClassifies(ifas, d);
    MainTableClassifies(ifas, d);
  }

  /** Where no interface address is a network or broadcast address, the usual reading: local exactly for
      the interface addresses, broadcast exactly for the network and broadcast addresses, unicast exactly
      for what else a prefix covers. */
  lemma UsualClassification(ifas: seq<Ifaddr>, d: uint32)
    requires Consistent(ifas)
    requires forall i, j :: 0 <= i < |ifas| && 0 <= j < |ifas| ==> !IsBroadcastOf(ifas[j], ifas[i].address)
    ensures TypeOf(ifas, d) == Some(RTN_LOCAL) <==> exists i :: 0 <= i < |ifas| && ifas[i].address == d
    ensures TypeOf(ifas, d) == Some(RTN_BROADCAST) <==> exists i :: 0 <= i < |ifas| && IsBroadcastOf(ifas[i], d)
    ensures TypeOf(ifas, d) == Some(RTN_UNICAST) <==>
              && (forall i :: 0 <= i < |ifas| ==> ifas[i].address != d && !IsBroadcastOf(ifas[i], d))
              && exists i :: 0 <= i < |ifas| && OnLink(ifas[i], d)
  {
    hide IsBroadcastOf;
    hide OnLink;
    hide TypeOf;
    InterfaceClassification(ifas, d);
    var rs := Relations(ifas, d);
    forall i, j | 0 <= i < |rs| && 0 <= j < |rs| && rs[i].own ensures !rs[j].broadcast {
      assert !IsBroadcastOf(ifas[j], ifas[i].address);
    }
    UsualRelations(rs);
    assert forall i :: 0 <= i < |ifas| ==> (rs[i].own <==> ifas[i].address == d);
    assert forall i :: 0 <= i < |ifas| ==> (rs[i].broadcast <==> IsBroadcastOf(ifas[i], d));
    assert forall i :: 0 <= i < |ifas| ==> (rs[i].onLink <==> OnLink(ifas[i], d));
  }

  lemma UsualRelations(rs: seq<Relation>)
    requires forall i, j :: 0 <= i < |rs| && 0 <= j < |rs| && rs[i].own ==> !rs[j].broadcast
    ensures IsLocal(rs) <==> exists i :: 0 <= i < |rs| && rs[i].own
    ensures IsBroadcast(rs) <==> exists i :: 0 <= i < |rs| && rs[i].broadcast
  {
  }

  /** After `NETDEV_UP`, `ip_route_input` accepts exactly the interface addresses, as long as none of them is a
      network or broadcast address. */
  lemma RouteInputAccepts(ifas: seq<Ifaddr>, d: uint32)
    requires Consistent(ifas)
    requires forall i, j :: 0 <= i < |ifas| && 0 <= j < |ifas| ==> !IsBroadcastOf(ifas[j], ifas[i].address)
    ensures IsLocalAddr(LocalTable(ifas), MainTable(ifas), d) <==> exists i :: 0 <= i < |ifas| && ifas[i].address == d
  {
    hide IsBroadcastOf;
    hide Lookup;
    UsualClassification(ifas, d);
  }

  /** That condition is needed: an interface configured with the network or broadcast address of its own prefix does
      not accept packets for itself, because its broadcast entry is added after its local one. */
  lemma BroadcastConfiguredAsAddress(ifa: Ifaddr)
    requires Consistent([ifa]) && IsBroadcastOf(ifa, ifa.address)
    ensures !IsLocalAddr(LocalTable([ifa]), MainTable([ifa]), ifa.address)
    ensures TypeOf([ifa], ifa.address) == Some(RTN_BROADCAST)
  {
    hide IsBroadcastOf;
    var d := ifa.address;
    InterfaceClassification([ifa], d);
    var rs := Relations([ifa], d);
    assert rs[0] == RelationTo(ifa, d);
  }

  /** Such an interface: 10.0.0.3/30 */
  lemma BroadcastConfiguredExample(dev: Device)
    ensures var ifa := Ifaddr(0x0300_000a, InetMakeMask(30), 30, dev);
            Consistent([ifa]) && IsBroadcastOf(ifa, ifa.address)
            && !IsLocalAddr(LocalTable([ifa]), MainTable([ifa]), ifa.address)
  {
    hide InetMakeMask;
    hide IsLocalAddr;
    var ifa := Ifaddr(0x0300_000a, InetMakeMask(30), 30, dev);
    HtonlBytes(0x0a, 0, 0, 3);
    assert AddrBit(ifa.address, 0) == 1;
    assert ShiftRight(0x0a00_0003, 1) == ShiftRight(0x0500_0001, 0);
    assert AddrBit(ifa.address, 1) == 1;
    BroadcastConfiguredAsAddress(ifa);
  }

  lemma {:induction false} BestIsAmong(routes: seq<Config>, d: uint32)
    ensures Best(routes, d).Some? ==> Best(routes, d).value in routes
  {
    if routes != [] {
      BestIsAmong(routes[..|routes| - 1], d);
    }
  }

  /** With one interface, what is on its link has a route, and every route leaves by it, with its address. */
  lemma OneInterface(ifa: Ifaddr, d: uint32)
    requires Consistent([ifa])
    ensures var r := Lookup(LocalTable([ifa]), MainTable([ifa]), d);
            (OnLink(ifa, d) ==> r.Some?) && (r.Some? ==> r.value.prefsrc == ifa.address && r.value.dev == ifa.dev)
  {
    hide OnLink;
    hide IsBroadcastOf;
    hide Best;
    InterfaceClassification([ifa], d);
    assert Relations([ifa], d)[0] == RelationTo(ifa, d);
    BestIsAmong(LocalTable([ifa]), d);
    BestIsAmong(MainTable([ifa]), d);
    assert LocalTable([ifa]) == LocalTable([]) + LocalRoutes(ifa);
    assert MainTable([ifa]) == MainTable([]) + MainRoutes(ifa);
  }
}

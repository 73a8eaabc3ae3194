/** Output routes (ipv4/route.c). */
module Route {
  import opened Words
  import opened Wrappers
  import opened Fib
  import opened FibFrontend
  import opened Resolution
  import opened NeighbourTable

  /** The source address and the neighbour of the route that `ip_route_output_slow` finds. */
  ghost function OutputSource(local: seq<Config>, main: seq<Config>, daddr: uint32, saddr: uint32): uint32
    requires Lookup(local, main, daddr).Some?
  {
    if saddr == 0 then Lookup(local, main, daddr).value.prefsrc else saddr
  }

  ghost function OutputNeighbour(local: seq<Config>, main: seq<Config>, daddr: uint32): Id
    requires Lookup(local, main, daddr).Some?
  {
    Id(daddr, Lookup(local, main, daddr).value.dev)
  }

  /** `ip_route_output_slow`: fails exactly when no route covers the destination; otherwise the route leads
      to the destination itself, from the preferred source unless one was given, and is bound to the
      destination's neighbour. The model starts a new route without a neighbour. */
  method IpRouteOutput(fib: Tables, arp: ArpTable, daddr: uint32, saddr: uint32) returns (rt: Option<Rtable>)
    requires fib.Valid() && arp.Valid()
    modifies arp
    ensures arp.Valid() && forall m :: m in arp.buckets ==> m in old(arp.buckets) || fresh(m)
    ensures forall m :: m in old(arp.buckets) ==> m in arp.buckets
    ensures rt.Some? <==> Lookup(old(fib.local.routes), old(fib.main.routes), daddr).Some?
    ensures rt.None? ==> arp.state == old(arp.state)
    ensures rt.Some? ==>
              var id := OutputNeighbour(old(fib.local.routes), old(fib.main.routes), daddr);
              && arp.state == Create(old(arp.state), id)
              && rt.value.neighbour != null && rt.value.neighbour in arp.buckets && rt.value.neighbour.id == id
              && rt.value.dst == rt.value.gateway == daddr && rt.value.dev == id.dev
              && rt.value.src == (if saddr == 0 then Lookup(old(fib.local.routes), old(fib.main.routes), daddr).value.prefsrc else saddr)
              && rt.value.rtype == Lookup(old(fib.local.routes), old(fib.main.routes), daddr).value.rtype
  {
    var res := fib.FibLookup(daddr);
    if res.None? {
      return None;
    }
    var devOut := res.value.dev;
    var src := if saddr == 0 then res.value.prefsrc else saddr;
    var rth := Rtable(devOut, res.value.rtype, daddr, src, daddr, null);
    var bound := arp.ArpBindNeighbour(rth);
    return Some(bound);
  }
}

/** The zoned routing table (ipv4/fib_hash.c) as a longest-prefix match. */
module Fib {
  import opened Words
  import opened Bits
  import opened Wrappers
  import opened Ethernet

  const RTN_UNICAST: byte := 1
  const RTN_LOCAL: byte := 2
  const RTN_BROADCAST: byte := 3

  /** `struct fib_config`. The device stands for the one its interface index denotes. */
  datatype Config = Config(rtype: byte, dst: uint32, dstLen: byte, prefsrc: uint32, dev: Device)

  /** What `fib_result` tells about the matching route. */
  datatype Result = Result(prefixlen: byte, rtype: byte, prefsrc: uint32, dev: Device)

  // ---------- the flat specification ----------

  /** The route agrees with the destination on all bits of its prefix. */
  ghost predicate Covers(r: Config, d: uint32) {
    1 <= r.dstLen <= 32 && LeadingBits(r.dst, r.dstLen) == LeadingBits(d, r.dstLen)
  }

  /** The covering route of greatest length, the most recent one among equals. Routes are listed oldest
      first. */
  ghost function Best(routes: seq<Config>, d: uint32): Option<Config> {
    if routes == [] then None
    else
      var older, last := Best(routes[..|routes| - 1], d), routes[|routes| - 1];
      if Covers(last, d) && (older.None? || older.value.dstLen <= last.dstLen) then Some(last) else older
  }

  /** Route `i` is the longest match, and the most recent one of its length. */
  ghost predicate IsLongestMatch(routes: seq<Config>, d: uint32, i: nat) {
    && i < |routes| && Covers(routes[i], d)
    && forall j :: 0 <= j < |routes| && Covers(routes[j], d) ==>
         routes[j].dstLen < routes[i].dstLen || (routes[j].dstLen == routes[i].dstLen && j <= i)
  }

  /** `Best` is the longest match in the declarative sense, and fails exactly when nothing covers. */
  lemma {:induction false} BestIsLongestMatch(routes: seq<Config>, d: uint32)
    ensures Best(routes, d).None? <==> forall i :: 0 <= i < |routes| ==> !Covers(routes[i], d)
    ensures Best(routes, d).Some? ==> exists i: nat :: IsLongestMatch(routes, d, i) && Best(routes, d).value == routes[i]
  {
    hide Covers;
    if routes != [] {
      var n := |routes| - 1;
      var older := routes[..n];
      BestIsLongestMatch(older, d);
      assert forall i :: 0 <= i < n ==> older[i] == routes[i];
      if Best(routes, d) == Best(older, d) && Best(older, d).Some? {
        var i: nat :| IsLongestMatch(older, d, i) && Best(older, d).value == older[i];
        if Covers(routes[n], d) && older[i].dstLen <= routes[n].dstLen {
          assert IsLongestMatch(routes, d, n);
        } else {
          assert IsLongestMatch(routes, d, i);
        }
      } else if Best(routes, d).Some? {
        assert IsLongestMatch(routes, d, n);
      }
    }
  }

  // ---------- the structure of ipv4/fib_hash.c ----------

  /** `struct fib_node` with its single alias. */
  datatype Node = Node(key: uint32, rtype: byte, prefsrc: uint32, dev: Device)

  /** An entry of `fn_zones`: null, or the routes of one prefix length, newest first. */
  datatype Zone = NoZone | Zone(order: byte, mask: uint32, nodes: seq<Node>)

  function NodeFor(cfg: Config): Node
    requires 1 <= cfg.dstLen <= 32
  {
    Node(Bitwise32(And, cfg.dst, InetMakeMask(cfg.dstLen)), cfg.rtype, cfg.prefsrc, cfg.dev)
  }

  function ResultFor(cfg: Config): Result {
    Result(cfg.dstLen, cfg.rtype, cfg.prefsrc, cfg.dev)
  }

  /** The nodes that a history of insertions leaves in zone `z`. */
  ghost function NodesOf(routes: seq<Config>, z: nat): seq<Node>
    requires 1 <= z <= 32
  {
    if routes == [] then []
    else
      var older, last := NodesOf(routes[..|routes| - 1], z), routes[|routes| - 1];
      if last.dstLen == z then [NodeFor(last)] + older else older
  }

  /** The most recent route of length `z` that covers `d`. */
  ghost function Latest(routes: seq<Config>, z: nat, d: uint32): (r: Option<Config>)
    ensures r.Some? ==> r.value.dstLen == z && Covers(r.value, d)
  {
    if routes == [] then None
    else
      var last := routes[|routes| - 1];
      if last.dstLen == z && Covers(last, d) then Some(last) else Latest(routes[..|routes| - 1], z, d)
  }

  ghost predicate NoLonger(routes: seq<Config>, z: int, d: uint32) {
    forall y :: z < y <= 32 ==> Latest(routes, y, d).None?
  }

  /** Searching the zones longest first finds the best route. */
  lemma {:induction false} ScanFindsBest(routes: seq<Config>, z: nat, d: uint32)
    requires NoLonger(routes, z, d)
    ensures Latest(routes, z, d).Some? ==> Best(routes, d) == Latest(routes, z, d)
    ensures Best(routes, d).Some? ==> Best(routes, d).value.dstLen <= z
  {
    if routes != [] {
      var older, last := routes[..|routes| - 1], routes[|routes| - 1];
      forall y | z < y <= 32 ensures Latest(older, y, d).None? {
        assert Latest(routes, y, d).None?;
      }
      ScanFindsBest(older, z, d);
      assert Covers(last, d) ==> Latest(routes, last.dstLen, d).Some?;
    }
  }

  /** The first node of a zone whose key equals the masked destination. */
  ghost function FirstMatch(nodes: seq<Node>, key: uint32): Option<Node> {
    if nodes == [] then None
    else if nodes[0].key == key then Some(nodes[0])
    else FirstMatch(nodes[1..], key)
  }

  lemma {:induction false} FirstMatchIsLatest(routes: seq<Config>, z: nat, d: uint32)
    requires 1 <= z <= 32
    ensures var found, latest := FirstMatch(NodesOf(routes, z), Bitwise32(And, d, InetMakeMask(z))), Latest(routes, z, d);
            && (found.None? <==> latest.None?)
            && (latest.Some? ==> latest.value.dstLen == z && found.value == NodeFor(latest.value))
  {
    if routes != [] {
      var older, last := routes[..|routes| - 1], routes[|routes| - 1];
      FirstMatchIsLatest(older, z, d);
      if last.dstLen == z {
        InetMakeMaskIsMask(z);
        MaskComparesPrefix(last.dst, d, InetMakeMask(z), z);
        assert NodesOf(routes, z)[1..] == NodesOf(older, z);
      }
    }
  }

  class FibTable {
    /** `fn_zones`, indexed by prefix length */
    const zones: array<Zone>
    /** the successful insertions, oldest first */
    ghost var routes: seq<Config>

    ghost predicate Valid()
      reads this, zones
    {
      && zones.Length == 33
      && zones[0].NoZone?
      && (forall i :: 0 <= i < |routes| ==> 1 <= routes[i].dstLen <= 32)
      && (forall z :: 1 <= z <= 32 ==> ZoneHolds(zones[z], z, routes))
    }

    static ghost predicate ZoneHolds(zone: Zone, z: nat, routes: seq<Config>)
      requires 1 <= z <= 32
    {
      match zone
      case NoZone => NodesOf(routes, z) == []
      case Zone(order, mask, nodes) => order == z && mask == InetMakeMask(z) && nodes == NodesOf(routes, z)
    }

    /** `fib_hash_init` */
    constructor ()
      ensures Valid() && fresh(zones) && routes == []
    {
      zones := new Zone[33](_ => NoZone);
      routes := [];
    }

    /** `fn_hash_insert`, with `fn_new_zone`. A length above 32 is refused; length 0 is undefined in C. */
    method Insert(cfg: Config) returns (err: int)
      requires Valid() && cfg.dstLen != 0
      modifies this, zones
      ensures Valid()
      ensures err == (if cfg.dstLen > 32 then -1 else 0)
      ensures routes == old(routes) + (if err == 0 then [cfg] else [])
    {
      if cfg.dstLen > 32 {
        return -1;
      }
      var fz := zones[cfg.dstLen];
      if fz.NoZone? {
        fz := Zone(cfg.dstLen, InetMakeMask(cfg.dstLen), []);
      }
      zones[cfg.dstLen] := fz.(nodes := [NodeFor(cfg)] + fz.nodes);
      ghost var before := routes;
      routes := routes + [cfg];
      assert routes[..|routes| - 1] == before;
      return 0;
    }

    /** `fn_hash_lookup`: the loops over zones and nodes refine the longest-prefix match. `fib_semantic_match`
        never rejects a node, so the first node with the masked destination ends the search. */
    method Lookup(d: uint32) returns (res: Option<Result>)
      requires Valid()
      ensures res == match Best(routes, d) { case None => None case Some(c) => Some(ResultFor(c)) }
    {
      var i := 32;
      while i >= 0
        invariant -1 <= i <= 32
        invariant NoLonger(routes, i, d)
      {
        var fz := zones[i];
        if i > 0 {
          FirstMatchIsLatest(routes, i, d);
        }
        if fz.Zone? {
          var key := Bitwise32(And, d, fz.mask);
          var node := 0;
          while node < |fz.nodes|
            invariant node <= |fz.nodes|
            invariant FirstMatch(fz.nodes[node..], key) == FirstMatch(fz.nodes, key)
          {
            if fz.nodes[node].key == key {
              ScanFindsBest(routes, i, d);
              return Some(Result(fz.order, fz.nodes[node].rtype, fz.nodes[node].prefsrc, fz.nodes[node].dev));
            }
            assert fz.nodes[node..][1..] == fz.nodes[node + 1..];
            node := node + 1;
          }
        }
        if i == 0 {
          NoRouteOfLengthZero(routes, d);
        }
        i := i - 1;
      }
      ScanFindsBest(routes, 0, d);
      BestHasLength(routes, d);
      return None;
    }
  }

  lemma {:induction false} NoRouteOfLengthZero(routes: seq<Config>, d: uint32)
    ensures Latest(routes, 0, d).None?
  {
    if routes != [] {
      NoRouteOfLengthZero(routes[..|routes| - 1], d);
    }
  }

  lemma {:induction false} BestHasLength(routes: seq<Config>, d: uint32)
    ensures Best(routes, d).Some? ==> Covers(Best(routes, d).value, d)
  {
    if routes != [] {
      BestHasLength(routes[..|routes| - 1], d);
    }
  }
}

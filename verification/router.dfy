/** Longest-prefix routing (libsponge/router.hh and libsponge/router.cc). */
module Routers {
  import opened WrappingIntegers
  import opened Options
  import opened Ipv4
  import opened NetworkInterfaces

  const PREFIX_MAX_BITS: nat := 32

  /** A table entry; `prefix` holds only the leading `length` bits of an address. */
  datatype Route = Route(prefix: uint32, length: nat, nextHop: Option<uint32>, interfaceNum: nat)

  /** The right shift of a number. */
  function ShiftRight(n: nat, k: nat): (r: nat)
    ensures r <= n
  {
    if k == 0 then n else ShiftRight(n / 2, k - 1)
  }

  /** What add_route keeps of a prefix; lengths above 32 keep nothing. */
  function StoredPrefix(prefix: uint32, length: nat): uint32 {
    ShiftRight(prefix, if length > PREFIX_MAX_BITS then PREFIX_MAX_BITS else PREFIX_MAX_BITS - length)
  }

  /** How many addresses agree in their leading `length` bits. */
  function BlockSize(length: nat): (n: nat)
    requires length <= PREFIX_MAX_BITS
    ensures n > 0
  {
    Pow2(PREFIX_MAX_BITS - length)
  }

  /** The route is meant for `dst`: its leading bits are the route's prefix. */
  predicate Matches(r: Route, dst: uint32)
    requires r.length <= PREFIX_MAX_BITS
  {
    dst / BlockSize(r.length) == r.prefix
  }

  lemma {:induction false} ShiftIsDivision(n: nat, k: nat)
    ensures ShiftRight(n, k) == n / Pow2(k)
  {
    if k > 0 {
      ShiftIsDivision(n / 2, k - 1);
      DivDiv(n, Pow2(k - 1));
    }
  }

  lemma DivDiv(n: nat, p: nat)
    requires p > 0
    ensures n / 2 / p == n / (2 * p)
  {
    var q := n / (2 * p);
    var r := n % (2 * p);
    assert n == q * (2 * p) + r;
    assert n / 2 == q * p + r / 2;
    assert r / 2 < p;
    DivIs(n / 2, p, q, r / 2);
  }

  /** The test in the loop is the right one. */
  lemma TestIsMatch(r: Route, dst: uint32)
    requires r.length <= PREFIX_MAX_BITS && (r.length == 0 ==> r.prefix == 0)
    ensures r.length == 0 || ShiftRight(dst, PREFIX_MAX_BITS - r.length) == r.prefix <==> Matches(r, dst)
  {
    ShiftIsDivision(dst, PREFIX_MAX_BITS - r.length);
    Pow2Of32();
    if r.length == 0 {
      DivIs(dst, BlockSize(0), 0, dst);
    }
  }

  ghost predicate WellFormed(routes: seq<Route>) {
    forall r :: r in routes ==> r.length <= PREFIX_MAX_BITS && (r.length == 0 ==> r.prefix == 0)
  }

  /** `i` is where the best route for `dst` is: no matching route is longer, and none after
      it is as long. */
  ghost predicate Best(routes: seq<Route>, dst: uint32, i: nat)
    requires WellFormed(routes)
  {
    && i < |routes|
    && Matches(routes[i], dst)
    && forall j :: 0 <= j < |routes| && Matches(routes[j], dst) ==>
         routes[j].length < routes[i].length || (routes[j].length == routes[i].length && j <= i)
  }

  /** The search loop of route_one_datagram: the best route, or none if none matches. */
  method FindRoute(routes: seq<Route>, dst: uint32) returns (found: bool, route: Route)
    requires WellFormed(routes)
    ensures !found ==> forall r :: r in routes ==> !Matches(r, dst)
    ensures found ==> exists i: nat :: Best(routes, dst, i) && route == routes[i]
  {
    found, route := false, Route(0, 0, None, 0);
    ghost var at: nat := 0;
    for k := 0 to |routes|
      invariant !found ==> route.length == 0 && forall j :: 0 <= j < k ==> !Matches(routes[j], dst)
      invariant found ==> at < k && route == routes[at] && Best(routes[..k], dst, at)
    {
      var candidate := routes[k];
      assert candidate in routes;
      assert routes[..k + 1][..k] == routes[..k];
      TestIsMatch(candidate, dst);
      if candidate.length >= route.length &&
         (ShiftRight(dst, PREFIX_MAX_BITS - candidate.length) == candidate.prefix || candidate.length == 0)
      {
        found, route := true, candidate;
        at := k;
      }
    }
    assert routes[..|routes|] == routes;
  }

  /** The best route, if any route matches. */
  ghost function Lookup(routes: seq<Route>, dst: uint32): Option<Route>
    requires WellFormed(routes)
  {
    if exists i: nat :: Best(routes, dst, i) then
      var i: nat :| Best(routes, dst, i);
      Some(routes[i])
    else None
  }

  lemma BestIsUnique(routes: seq<Route>, dst: uint32, i: nat, j: nat)
    requires WellFormed(routes) && Best(routes, dst, i) && Best(routes, dst, j)
    ensures i == j
  {
  }

  /** What FindRoute returns is what Lookup says. */
  lemma LookupIsFound(routes: seq<Route>, dst: uint32, found: bool, route: Route)
    requires WellFormed(routes)
    requires !found ==> forall r :: r in routes ==> !Matches(r, dst)
    requires found ==> exists i: nat :: Best(routes, dst, i) && route == routes[i]
    ensures Lookup(routes, dst) == if found then Some(route) else None
  {
    if found {
      var i: nat :| Best(routes, dst, i) && route == routes[i];
      forall j: nat | Best(routes, dst, j) ensures j == i {
        BestIsUnique(routes, dst, i, j);
      }
    } else {
      LookupFinds(routes, dst);
    }
  }

  /** There is a best route exactly when some route matches. */
  lemma {:induction false} LookupFinds(routes: seq<Route>, dst: uint32)
    requires WellFormed(routes)
    ensures Lookup(routes, dst).Some? <==> exists r :: r in routes && Matches(r, dst)
    ensures Lookup(routes, dst).Some? <==> exists r :: r in routes && dst / Pow2(32 - r.length) == r.prefix
    ensures Lookup(routes, dst).Some? ==>
              && Lookup(routes, dst).value in routes && Matches(Lookup(routes, dst).value, dst)
              && forall r :: r in routes && Matches(r, dst) ==> r.length <= Lookup(routes, dst).value.length
  {
    if exists r :: r in routes && Matches(r, dst) {
      var _ := SomeBest(routes, dst);
    }
  }

  lemma {:induction false} SomeBest(routes: seq<Route>, dst: uint32) returns (i: nat)
    requires WellFormed(routes) && exists r :: r in routes && Matches(r, dst)
    ensures Best(routes, dst, i)
  {
    var n := |routes| - 1;
    var last, before := routes[n], routes[..n];
    assert last in routes && routes == before + [last];
    if exists r :: r in before && Matches(r, dst) {
      i := SomeBest(before, dst);
      if Matches(last, dst) && last.length >= routes[i].length {
        i := n;
      }
    } else {
      i := n;
    }
  }

  /** With one route for each prefix, the order in which routes were added does not matter. */
  lemma OrderIsIrrelevant(a: seq<Route>, b: seq<Route>, dst: uint32)
    requires WellFormed(a) && WellFormed(b)
    requires forall r :: r in a <==> r in b
    requires forall r, q :: r in a && q in a && r.prefix == q.prefix && r.length == q.length ==> r == q
    ensures Lookup(a, dst) == Lookup(b, dst)
  {
    LookupFinds(a, dst);
    LookupFinds(b, dst);
    if Lookup(a, dst).Some? {
      var r, q := Lookup(a, dst).value, Lookup(b, dst).value;
      assert r in b && q in a;
      assert r.length == q.length && r.prefix == q.prefix;
    }
  }

  /** An added route matches exactly the destinations in the block of addresses around its
      prefix: those that agree with it in the leading bits. */
  lemma AddedRouteMatches(prefix: uint32, length: nat, nextHop: Option<uint32>, interfaceNum: nat, dst: uint32)
    requires length <= PREFIX_MAX_BITS
    ensures var r := Route(StoredPrefix(prefix, length), length, nextHop, interfaceNum);
            var size := Pow2(32 - length);
            && WellFormed([r])
            && (Matches(r, dst) <==> dst / size == prefix / size)
            && (Matches(r, dst) <==> prefix - prefix % size <= dst < prefix - prefix % size + size)
  {
    var size := BlockSize(length);
    ShiftIsDivision(prefix, PREFIX_MAX_BITS - length);
    Pow2Of32();
    if length == 0 {
      DivIs(prefix, size, 0, prefix);
    }
    InBlockIff(dst, prefix, size);
  }

  lemma InBlockIff(n: nat, m: nat, size: nat)
    requires size > 0
    ensures n / size == m / size <==> m - m % size <= n < m - m % size + size
  {
    var q, start := m / size, m - m % size;
    assert start == q * size && n == n / size * size + n % size;
    if start <= n < start + size {
      DivIs(n, size, q, n - start);
    }
  }

  lemma Pow2Of32()
    ensures Pow2(32) == TWO32
  {
    assert Pow2(8) == 0x100;
    assert Pow2(16) == 0x1_0000;
    assert Pow2(24) == 0x100_0000;
  }

  // ----- Forwarding -----

  /** Where a datagram goes: to which interface and to which next hop. */
  datatype Hop = Hop(interfaceNum: nat, dgram: Datagram, hop: uint32)

  ghost function Decide(routes: seq<Route>, dgram: Datagram): Option<Hop>
    requires WellFormed(routes)
  {
    if dgram.header.ttl <= 1 then None
    else
      var sent := dgram.(header := dgram.header.(ttl := dgram.header.ttl - 1));
      match Lookup(routes, dgram.header.dst)
      case None => None
      case Some(r) =>
        Some(Hop(r.interfaceNum, sent, if r.nextHop.Some? then r.nextHop.value else dgram.header.dst))
  }

  /** A datagram is forwarded exactly when it has time to live left and a route matches; it
      then leaves through the best route with one hop less to live and is otherwise the same,
      to the route's next hop or, on a direct route, to its destination. */
  lemma ForwardedIff(routes: seq<Route>, dgram: Datagram)
    requires WellFormed(routes)
    ensures Decide(routes, dgram).Some? <==>
              dgram.header.ttl > 1 &&
              exists r :: r in routes && dgram.header.dst / Pow2(32 - r.length) == r.prefix
    ensures Decide(routes, dgram).Some? ==>
              var h := Decide(routes, dgram).value;
              && h.dgram.header.ttl == dgram.header.ttl - 1
              && h.dgram.(header := h.dgram.header.(ttl := dgram.header.ttl)) == dgram
              && exists i: nat :: Best(routes, dgram.header.dst, i) && h.interfaceNum == routes[i].interfaceNum
                   && h.hop == if routes[i].nextHop.Some? then routes[i].nextHop.value else dgram.header.dst
  {
    LookupFinds(routes, dgram.header.dst);
  }

  ghost predicate InterfacesExist(routes: seq<Route>, n: nat) {
    forall r :: r in routes ==> r.interfaceNum < n
  }

  lemma DecideInRange(routes: seq<Route>, dgram: Datagram, n: nat)
    requires WellFormed(routes) && InterfacesExist(routes, n)
    ensures Decide(routes, dgram).Some? ==> Decide(routes, dgram).value.interfaceNum < n
  {
    LookupFinds(routes, dgram.header.dst);
  }

  /** The interfaces after one datagram was routed. */
  ghost function Forward(routes: seq<Route>, interfaces: seq<Interface>, dgram: Datagram): (r: seq<Interface>)
    requires WellFormed(routes) && InterfacesExist(routes, |interfaces|)
    ensures |r| == |interfaces|
  {
    DecideInRange(routes, dgram, |interfaces|);
    match Decide(routes, dgram)
    case None => interfaces
    case Some(h) => interfaces[h.interfaceNum := interfaces[h.interfaceNum].SendDatagram(h.dgram, h.hop)]
  }

  ghost function ForwardAll(routes: seq<Route>, interfaces: seq<Interface>, dgrams: seq<Datagram>): (r: seq<Interface>)
    requires WellFormed(routes) && InterfacesExist(routes, |interfaces|)
    ensures |r| == |interfaces|
    decreases |dgrams|
  {
    if dgrams == [] then interfaces
    else ForwardAll(routes, Forward(routes, interfaces, dgrams[0]), dgrams[1..])
  }

  /** The datagrams routed to interface `k`, in order, each with its next hop. */
  ghost function Share(routes: seq<Route>, dgrams: seq<Datagram>, k: nat): seq<Hop>
    requires WellFormed(routes)
  {
    if dgrams == [] then []
    else
      var d := Decide(routes, dgrams[0]);
      (if d.Some? && d.value.interfaceNum == k then [d.value] else []) + Share(routes, dgrams[1..], k)
  }

  function SendAll(i: Interface, hops: seq<Hop>): Interface
    decreases |hops|
  {
    if hops == [] then i else SendAll(i.SendDatagram(hops[0].dgram, hops[0].hop), hops[1..])
  }

  /** Routing any number of datagrams does to each interface exactly what sending it its own
      share, in order, does: nothing is lost, duplicated, reordered or sent elsewhere. */
  lemma {:induction false} InterfacesAreIndependent(routes: seq<Route>, interfaces: seq<Interface>,
                                                    dgrams: seq<Datagram>, k: nat)
    requires WellFormed(routes) && InterfacesExist(routes, |interfaces|) && k < |interfaces|
    ensures ForwardAll(routes, interfaces, dgrams)[k] == SendAll(interfaces[k], Share(routes, dgrams, k))
    decreases |dgrams|
  {
    hide Decide, Interface.SendDatagram;
    if dgrams != [] {
      DecideInRange(routes, dgrams[0], |interfaces|);
      var next := Forward(routes, interfaces, dgrams[0]);
      InterfacesAreIndependent(routes, next, dgrams[1..], k);
      var d := Decide(routes, dgrams[0]);
      if d.Some? && d.value.interfaceNum == k {
        var share := Share(routes, dgrams, k);
        assert share[0] == d.value && share[1..] == Share(routes, dgrams[1..], k);
      } else {
        assert Share(routes, dgrams, k) == Share(routes, dgrams[1..], k);
      }
    }
  }

  lemma {:induction false} ForwardAllConcat(routes: seq<Route>, interfaces: seq<Interface>,
                                            a: seq<Datagram>, b: seq<Datagram>)
    requires WellFormed(routes) && InterfacesExist(routes, |interfaces|)
    ensures ForwardAll(routes, interfaces, a + b) == ForwardAll(routes, ForwardAll(routes, interfaces, a), b)
    decreases |a|
  {
    if a == [] {
      assert a + b == b;
    } else {
      assert (a + b)[1..] == a[1..] + b;
      ForwardAllConcat(routes, Forward(routes, interfaces, a[0]), a[1..], b);
    }
  }

  function Concat(inboxes: seq<seq<Datagram>>): seq<Datagram> {
    if inboxes == [] then [] else inboxes[0] + Concat(inboxes[1..])
  }

  /** A router; `inboxes[k]` are the datagrams received on interface `k`. */
  class Router {
    var routes: seq<Route>
    var interfaces: seq<Interface>
    var inboxes: seq<seq<Datagram>>

    ghost predicate Valid()
      reads this
    {
      |inboxes| == |interfaces| && WellFormed(routes) && InterfacesExist(routes, |interfaces|)
    }

    constructor ()
      ensures Valid() && routes == [] && interfaces == [] && inboxes == []
    {
      routes, interfaces, inboxes := [], [], [];
    }

    method AddInterface(i: Interface) returns (k: nat)
      modifies this
      ensures old(Valid()) ==> Valid()
      ensures k == |old(interfaces)|
      ensures interfaces == old(interfaces) + [i] && inboxes == old(inboxes) + [[]] && routes == old(routes)
    {
      interfaces, inboxes := interfaces + [i], inboxes + [[]];
      k := |interfaces| - 1;
    }

    /** Any length and any interface number is stored; only routes of at most 32 bits to
        interfaces that exist by the time of routing can be used. */
    method AddRoute(prefix: uint32, length: byte, nextHop: Option<uint32>, interfaceNum: nat)
      modifies this
      ensures old(Valid()) && length <= PREFIX_MAX_BITS && interfaceNum < |interfaces| ==> Valid()
      ensures interfaces == old(interfaces) && inboxes == old(inboxes)
      ensures routes == old(routes) + [Route(StoredPrefix(prefix, length), length, nextHop, interfaceNum)]
      ensures length <= PREFIX_MAX_BITS ==> StoredPrefix(prefix, length) == prefix / Pow2(32 - length)
    {
      ShiftIsDivision(prefix, if length > PREFIX_MAX_BITS then 0 else PREFIX_MAX_BITS - length);
      if length <= PREFIX_MAX_BITS {
        AddedRouteMatches(prefix, length, nextHop, interfaceNum, 0);
      }
      var r := Route(StoredPrefix(prefix, length), length, nextHop, interfaceNum);
      assert r in [r];
      routes := routes + [r];
    }

    method RouteOne(dgram: Datagram)
      requires Valid()
      modifies this`interfaces
      ensures interfaces == Forward(routes, old(interfaces), dgram)
    {
      if dgram.header.ttl <= 1 {
        return;
      }
      var sent := dgram.(header := dgram.header.(ttl := dgram.header.ttl - 1));
      var found, r := FindRoute(routes, sent.header.dst);
      assert found ==> r in routes;
      LookupIsFound(routes, sent.header.dst, found, r);
      hide Lookup;
      if found {
        var hop := if r.nextHop.Some? then r.nextHop.value else sent.header.dst;
        interfaces := interfaces[r.interfaceNum := interfaces[r.interfaceNum].SendDatagram(sent, hop)];
      }
    }

    /** Routes everything received, interface by interface. */
    method RouteAll()
      requires Valid()
      modifies this
      ensures Valid() && routes == old(routes)
      ensures interfaces == ForwardAll(routes, old(interfaces), Concat(old(inboxes)))
      ensures forall k :: 0 <= k < |inboxes| ==> inboxes[k] == []
    {
      ghost var boxes, all := inboxes, ForwardAll(routes, interfaces, Concat(inboxes));
      for k := 0 to |inboxes|
        invariant Valid() && routes == old(routes) && |inboxes| == |boxes|
        invariant forall j :: 0 <= j < |inboxes| ==> inboxes[j] == if j < k then [] else boxes[j]
        invariant ForwardAll(routes, interfaces, Concat(boxes[k..])) == all
      {
        assert boxes[k..][1..] == boxes[k + 1..];
        ForwardAllConcat(routes, interfaces, boxes[k], Concat(boxes[k + 1..]));
        RouteBox(k);
      }
      assert boxes[|boxes|..] == [];
    }

    /** The inner loop of route: empties one interface's queue. */
    method RouteBox(k: nat)
      requires Valid() && k < |inboxes|
      modifies this`interfaces, this`inboxes
      ensures Valid() && inboxes == old(inboxes)[k := []]
      ensures interfaces == ForwardAll(routes, old(interfaces), old(inboxes)[k])
    {
      ghost var done := ForwardAll(routes, interfaces, inboxes[k]);
      while |inboxes[k]| > 0
        invariant Valid() && |inboxes| == |old(inboxes)|
        invariant inboxes == old(inboxes)[k := inboxes[k]]
        invariant ForwardAll(routes, interfaces, inboxes[k]) == done
        decreases |inboxes[k]|
      {
        RouteOne(inboxes[k][0]);
        inboxes := inboxes[k := inboxes[k][1..]];
      }
    }
  }
}

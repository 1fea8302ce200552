/** The topology database of a PWOSPF router and what is computed from it. */
module Topology {
  import opened Graphs
  import opened PathLabels
  import opened Records
  import opened Routers
  import opened Forwarding
  import opened Withdrawal
  import opened Hellos
  import opened Flooding
  import opened Database

  const OSPF_DEFAULT_LSUINT: int := 30
  const TOP_INITIALIZATION: int := 90

  /** The sections that threads run with the PWOSPF lock held and that change the database: taking in an
      LSU, storing its sequence number, a HELLO, and the timer. */
  datatype Section =
    | LsuSection(rid: Word, advs: seq<Route>, now: int)
    | SequenceSection(rid: Word, seq_: bv16)
    | HelloSection(len: nat, hello: Hello, now: int)
    | TimerSection(now: int)

  /** How update_ftable ends: a failed assertion stops the program; 0 and 1 are its results. */
  datatype FtStatus = Aborted | Incomplete | Complete

  function RidOf(r: Router): Word {
    r.rid
  }

  /** Sets the lowest bit of an address in network order. */
  function WithHostBit(a: Word, littleEndian: bool): Word {
    if littleEndian then (if a / 0x100_0000 % 2 == 0 then a + 0x100_0000 else a)
    else if a % 2 == 0 then a + 1 else a
  }

  /** The subnet set up for an interface at start. */
  function InitialRoute(f: Iface, littleEndian: bool): Route {
    var prefix := And(f.address, f.mask);
    Route(prefix, f.mask, if prefix == f.address then WithHostBit(f.address, littleEndian) else prefix, 0)
  }

  function InitialEntry(f: Iface, littleEndian: bool): Entry {
    var r := InitialRoute(f, littleEndian);
    Entry(r.prefix, r.mask, r.nextHop, f.name, 0)
  }

  class Subsystem {
    var network: seq<Router>
    const thisRouter: Router
    var fwrdTable: seq<Entry>
    var interfaces: seq<Iface>
    const initTime: int
    var lastSeqSent: bv16

    /** pwospf_init: one subnet and one table entry per interface. The subnet array is not grown, so
        there may be at most ten interfaces. */
    constructor (rid: Word, ifs: seq<Iface>, littleEndian: bool, now: int)
      requires |ifs| <= INIT_SUBNET_SIZE
      ensures ValidNet() && fresh(thisRouter) && network == [thisRouter] && thisRouter.rid == rid
      ensures PrevsInside() && Contents() == Initially(rid, thisRouter.subnets)
      ensures interfaces == ifs && initTime == now + 90 && lastSeqSent == 0
      ensures thisRouter.subnets == seq(|ifs|, i requires 0 <= i < |ifs| => InitialRoute(ifs[i], littleEndian))
      ensures fwrdTable == seq(|ifs|, i requires 0 <= i < |ifs| => InitialEntry(ifs[i], littleEndian))
    {
      thisRouter := new Router(rid, now + 3 * OSPF_DEFAULT_LSUINT);
      initTime := now + TOP_INITIALIZATION;
      lastSeqSent := 0;
      fwrdTable := [];
      interfaces := ifs;
      new;
      network := [thisRouter];
      for i := 0 to |ifs|
        invariant network == [thisRouter] && thisRouter.Packed() && thisRouter.Adj() == {} && interfaces == ifs
                  && lastSeqSent == 0
        invariant thisRouter.subnetBufSize == INIT_SUBNET_SIZE && fresh(thisRouter) && thisRouter.prev == null
                  && thisRouter.rid == rid
        invariant thisRouter.subnets == seq(i, j requires 0 <= j < i => InitialRoute(ifs[j], littleEndian))
        invariant fwrdTable == seq(i, j requires 0 <= j < i => InitialEntry(ifs[j], littleEndian))
      {
        thisRouter.subnets := thisRouter.subnets + [InitialRoute(ifs[i], littleEndian)];
        fwrdTable := fwrdTable + [InitialEntry(ifs[i], littleEndian)];
      }
      assert thisRouter.AdjIds() == {};
      DescriptionIsContents(Initially(rid, thisRouter.subnets));
    }

    /** Router ids are unique, adjacencies stay inside the network, and this router is its head. */
    ghost predicate ValidNet()
      reads `network, network`adjacencies, network`adjSize, network`subnets, network`subnetBufSize
    {
      && 0 < |network| && network[0] == thisRouter
      && (forall i, j | 0 <= i < j < |network| :: network[i].rid != network[j].rid)
      && (forall r | r in network :: r.Packed() && forall x | x in r.Adj() :: x in network)
    }

    ghost function Nodes(): set<Router>
      reads `network
    {
      set r | r in network
    }

    ghost function Links(): (g: Graph<Router>)
      reads `network, network`adjacencies, network`adjSize, network`subnets, network`subnetBufSize
      requires ValidNet()
      ensures Closed(g) && g.Keys == Nodes()
    {
      map r | r in network :: r.Adj()
    }

    method GetSmallestUnknown() returns (r: Router?)
      ensures IsClosest(r)
    {
      r := null;
      var minDist := -1;
      var i := 0;
      while i < |network|
        invariant 0 <= i <= |network|
        invariant (r == null) == (minDist < 0)
        invariant r != null ==> r in network && !r.known && r.dist == minDist
        invariant forall k | 0 <= k < i && !network[k].known && 0 <= network[k].dist ::
                    0 <= minDist <= network[k].dist
        decreases |network| - i, if i < |network| && minDist == network[i].dist then 0 else 1
      {
        var current := network[i];
        if current.known {
          i := i + 1;
        } else if current.dist < 0 {
          i := i + 1;
        } else if minDist > current.dist {
          minDist := current.dist;
          r := current;
        } else if minDist < 0 {
          minDist := current.dist;
          r := current;
        } else {
          i := i + 1;
        }
      }
    }

    /** The labels held by the routers of the network. */
    ghost function Marks(): Labels<Router>
      reads `network, network`known, network`dist, network`prev
    {
      Labels(map r | r in network :: r.dist,
             map r | r in network && r.prev != null :: (r.prev as Router),
             set r | r in network && r.known)
    }

    /** Every router carries its distance from this router, or -1 when it cannot be reached, and a
        predecessor one hop closer. */
    ghost predicate ShortestPaths()
      reads `network, network`adjacencies, network`adjSize, network`subnets, network`subnetBufSize
      reads network`known, network`dist, network`prev
      requires ValidNet()
    {
      Final(Links(), thisRouter, Marks())
    }

    lemma SlotsAreLinks(u: Router)
      requires ValidNet() && u in network
      ensures u.adjSize <= |u.adjacencies|
      ensures forall i | 0 <= i < u.adjSize ::
                u.adjacencies[i] != null && u.adjacencies[i] in network && u.adjacencies[i] in Links()[u]
      ensures forall w | w in Links()[u] :: w in u.adjacencies[..u.adjSize]
    {
      forall i | 0 <= i < u.adjSize
        ensures u.adjacencies[i] != null && u.adjacencies[i] in network && u.adjacencies[i] in Links()[u]
      {
        assert u.adjacencies[i] in u.adjacencies[..u.adjSize];
        assert u.adjacencies[i] in u.Adj();
      }
    }

    /** Lowers the label of `w` if it is closer by way of `u`. */
    method RelaxEdge(u: Router, w: Router)
      requires u in network && w in network
      modifies w`dist, w`prev
      ensures Marks() == Relax(old(Marks()), u, w)
    {
      if !w.known {
        if u.dist + 1 < w.dist || w.dist < 0 {
          w.dist := u.dist + 1;
          w.prev := u;
        }
      }
    }

    /** Dijkstra's algorithm runs on links `g` and is between two visits. */
    ghost predicate Resting(g: Graph<Router>)
      reads `network, network`adjacencies, network`adjSize, network`subnets, network`subnetBufSize
      reads network`known, network`dist, network`prev
    {
      ValidNet() && Links() == g && Settled(g, thisRouter, Marks())
    }

    /** Dijkstra's algorithm runs on links `g` and is visiting `u`. */
    ghost predicate VisitingAt(g: Graph<Router>, u: Router)
      reads `network, network`adjacencies, network`adjSize, network`subnets, network`subnetBufSize
      reads network`known, network`dist, network`prev
    {
      ValidNet() && u in network && Links() == g && Visiting(g, thisRouter, Marks(), u)
    }

    /** The loop over the adjacencies of the router just visited. */
    method RelaxAdjacencies(u: Router, ghost g: Graph<Router>)
      requires VisitingAt(g, u) && u in network
      modifies Nodes()`dist, Nodes()`prev
      ensures Resting(g) && Unvisited() == old(Unvisited())
    {
      hide Visiting, Settled, EdgeRelaxed, ValidNet, Links, Marks;
      SlotsAreLinks(u);
      var i := 0;
      while i < u.adjSize
        invariant 0 <= i <= u.adjSize
        invariant ValidNet() && Links() == g && Marks().known == old(Marks().known)
        invariant Visiting(g, thisRouter, Marks(), u)
        invariant forall k | 0 <= k < i :: EdgeRelaxed(Marks(), u, u.adjacencies[k])
      {
        RelaxStep(g, thisRouter, Marks(), u, u.adjacencies[i]);
        RelaxEdge(u, u.adjacencies[i]);
        i := i + 1;
      }
      VisitDone(g, thisRouter, Marks(), u);
    }

    method ResetMarks()
      requires thisRouter in network
      modifies Nodes()`known, Nodes()`dist, Nodes()`prev
      ensures Marks() == InitialLabels(Nodes(), thisRouter)
    {
      var k := 0;
      while k < |network|
        invariant 0 <= k <= |network|
        invariant forall j | 0 <= j < k :: !network[j].known && network[j].dist == -1 && network[j].prev == null
      {
        network[k].known := false;
        network[k].dist := -1;
        network[k].prev := null;
        k := k + 1;
      }
      thisRouter.dist := 0;
    }

    lemma FirstRest(g: Graph<Router>)
      requires ValidNet() && Links() == g && Marks() == InitialLabels(Nodes(), thisRouter)
      ensures Resting(g)
    {
      hide Links, Settled;
      InitiallySettled(Links(), thisRouter);
    }

    /** A router not visited yet with the smallest label, if any has a label. */
    ghost predicate IsClosest(r: Router?)
      reads `network, network`known, network`dist, network`prev
    {
      var l := Marks();
      if r == null then forall v | v in Nodes() && v !in l.known :: l.dist[v] < 0
      else r in Nodes() && r !in l.known && 0 <= l.dist[r]
           && forall v | v in Nodes() && v !in l.known && 0 <= l.dist[v] :: l.dist[r] <= l.dist[v]
    }

    ghost function Unvisited(): set<Router>
      reads `network, network`known, network`dist, network`prev
    {
      Nodes() - Marks().known
    }

    /** Marks a closest router as visited. */
    method MarkKnown(u: Router, ghost g: Graph<Router>)
      requires Resting(g) && IsClosest(u)
      modifies Nodes()`known
      ensures VisitingAt(g, u) && u in network && Unvisited() < old(Unvisited())
    {
      hide Visiting, Settled, ValidNet, Links;
      VisitClosest(g, thisRouter, Marks(), u);
      u.known := true;
      assert Marks() == old(Marks()).(known := old(Marks()).known + {u});
      assert u in old(Unvisited());
    }

    lemma NoneLeft(g: Graph<Router>)
      requires Resting(g) && IsClosest(null)
      ensures ValidNet() && Links() == g && ShortestPaths()
    {
      NothingLeft(g, thisRouter, Marks());
    }

    lemma ThisRouterIsNode()
      requires ValidNet()
      ensures thisRouter in Nodes() && thisRouter in network
    {
    }

    method Dijkstra()
      requires ValidNet()
      modifies Nodes()`known, Nodes()`dist, Nodes()`prev
      ensures ValidNet() && Links() == old(Links())
      ensures ShortestPaths()
    {
      hide Resting, VisitingAt, ShortestPaths, ValidNet, Links, Marks, IsClosest, Unvisited, InitialLabels;
      ghost var g := Links();
      ThisRouterIsNode();
      ResetMarks();
      FirstRest(g);
      var least := GetSmallestUnknown();
      while least != null
        invariant Resting(g) && IsClosest(least)
        decreases Unvisited()
      {
        MarkKnown(least, g);
        RelaxAdjacencies(least, g);
        least := GetSmallestUnknown();
      }
      NoneLeft(g);
    }

    lemma SameRid(r: Router, x: Router)
      requires ValidNet() && r in network && x in network
      ensures r.rid == x.rid <==> r == x
    {
    }

    /** What the marks say about the predecessor of one router. */
    lemma Predecessor(r: Router)
      requires ValidNet() && ShortestPaths() && r in network && r != thisRouter
      ensures r.prev == null ==> !Reachable(Links(), thisRouter, r) && r.dist == -1
      ensures r.prev != null ==>
                && r.prev in network && r in Links()[r.prev] && (r.prev != thisRouter ==> r.prev.prev != null)
                && r.dist == r.prev.dist + 1 && 0 <= r.prev.dist
                && Reachable(Links(), thisRouter, r) && IsDistance(Links(), thisRouter, r, r.dist)
    {
      hide Final, ValidNet, Links, IsDistance, Reachable;
      assert r in Nodes() && Nodes() == Links().Keys;
      FinalAt(Links(), thisRouter, Marks(), r);
    }

    /** The first router on a shortest path to `dest`, found by walking back along `prev`. */
    method FindNextHop(dest: Router) returns (next: Router?, hops: int)
      requires ValidNet() && ShortestPaths() && dest in network
      ensures dest == thisRouter ==> next == null && hops == 0
      ensures dest != thisRouter && !Reachable(Links(), thisRouter, dest) ==> next == null && hops == -1
      ensures dest != thisRouter && Reachable(Links(), thisRouter, dest) ==>
                && next != null && next in network && next in Links()[thisRouter]
                && 0 < hops && IsDistance(Links(), thisRouter, dest, hops)
                && IsDistance<Router>(Links(), next, dest, hops - 1)
    {
      hide ValidNet, ShortestPaths, Links, IsDistance, Reachable, Walk;
      var numhops := 0;
      var cur: Router := dest;
      ThisRouterIsNode();
      SameRid(dest, thisRouter);
      if dest.rid == thisRouter.rid {
        return null, 0;
      }
      numhops := 1;
      Predecessor(dest);
      Stay(Links(), dest);
      while cur.prev != null && cur.prev.rid != thisRouter.rid
        invariant 0 < numhops && cur in network && cur != thisRouter
        invariant cur.prev == null || dest.prev == null ==> cur == dest
        invariant Walk(Links(), cur, dest, numhops - 1) && numhops - 1 + cur.dist == dest.dist
        decreases cur.dist
      {
        Predecessor(cur);
        SameRid(cur.prev, thisRouter);
        StepBack(cur, dest, numhops - 1);
        numhops := numhops + 1;
        cur := cur.prev;
      }
      if cur.prev == null {
        return null, -1;
      }
      Predecessor(cur);
      SameRid(cur.prev, thisRouter);
      SourceMark();
      Edge(Links(), thisRouter, cur);
      SuffixIsShortest(Links(), thisRouter, cur, dest, 1, numhops - 1);
      return cur, numhops;
    }

    lemma SourceMark()
      requires ValidNet() && ShortestPaths()
      ensures thisRouter in network && thisRouter.dist == 0
    {
      assert Marks().dist[thisRouter] == 0;
    }

    lemma StepBack(cur: Router, dest: Router, n: nat)
      requires ValidNet() && cur.prev != null && cur.prev in network && cur in Links()[cur.prev]
      requires Walk(Links(), cur, dest, n)
      ensures Walk<Router>(Links(), cur.prev, dest, n + 1)
    {
      hide Walk, ValidNet, Links;
      Edge<Router>(Links(), cur.prev, cur);
      Compose<Router>(Links(), cur.prev, cur, dest, 1, n);
    }

    /** The subnets of every router of the network. */
    ghost function Subs(): map<Router, seq<Route>>
      reads `network, network`subnets
    {
      map r | r in network :: r.subnets
    }

    /** The table is right for the topology as it is now. */
    ghost predicate TableMatches()
      reads this, network`adjacencies, network`adjSize, network`subnets, network`subnetBufSize
      requires ValidNet()
    {
      TableCorrect(Links(), thisRouter, Subs(), interfaces, RidOf, fwrdTable)
    }

    method FtableContains(prefix: Word, mask: Word) returns (place: Option<nat>)
      ensures place == Position(fwrdTable, prefix, mask)
    {
      for i := 0 to |fwrdTable|
        invariant forall k | 0 <= k < i :: !(fwrdTable[k].prefix == prefix && fwrdTable[k].mask == mask)
      {
        if fwrdTable[i].prefix == prefix && fwrdTable[i].mask == mask {
          return Some(i);
        }
      }
      return None;
    }

    /** Copies of the interface and neighbour with the given id; left zeroed when there is none. */
    method GetIfAndNeighbor(id: Word) returns (ip: Word, iface: string)
      ensures (ip, iface) == HopVia(interfaces, id)
      ensures Unheard(interfaces, id) ==> ip == 0 && iface == ""
      ensures !Unheard(interfaces, id) ==>
                exists i: nat, j: nat :: FirstHeard(interfaces, id, i, j) && ip == interfaces[i].neighbors[j].ip
                                         && iface == interfaces[i].name
    {
      hide FirstHeard, Unheard;
      ghost var a, b := HopViaFirst(interfaces, id);
      var i := 0;
      while i < |interfaces|
        invariant 0 <= i <= |interfaces|
        invariant HopVia(interfaces[i..], id) == HopVia(interfaces, id)
      {
        var ns := interfaces[i].neighbors;
        var j := 0;
        while j < |ns|
          invariant 0 <= j <= |ns| && FirstWithId(ns[j..], id) == FirstWithId(ns, id)
        {
          if ns[j].id == id {
            return ns[j].ip, interfaces[i].name;
          }
          j := j + 1;
        }
        i := i + 1;
      }
      return 0, "";
    }

    method GetSubnetIf(prefix: Word) returns (iface: Option<string>)
      ensures iface == SubnetIface(interfaces, prefix)
      ensures iface.None? <==> forall i | 0 <= i < |interfaces| ::
                And(interfaces[i].mask, interfaces[i].address) != prefix
      ensures iface.Some? ==> exists i: nat :: FirstOn(interfaces, prefix, i) && interfaces[i].name == iface.value
    {
      ghost var a := SubnetIfaceFirst(interfaces, prefix);
      var i := 0;
      while i < |interfaces|
        invariant 0 <= i <= |interfaces|
        invariant SubnetIface(interfaces[i..], prefix) == SubnetIface(interfaces, prefix)
      {
        if And(interfaces[i].mask, interfaces[i].address) == prefix {
          return Some(interfaces[i].name);
        }
        i := i + 1;
      }
      return None;
    }

    /** The table holds the best of the offers made so far, all of them genuine. */
    ghost predicate Merging(offers: seq<Entry>)
      reads this, network`adjacencies, network`adjSize, network`subnets, network`subnetBufSize
      requires ValidNet()
    {
      && fwrdTable == MergeAll(offers)
      && forall o | o in offers :: 0 <= o.numHops && Genuine(Links(), thisRouter, Subs(), interfaces, RidOf, o)
    }

    lemma OneMoreOffer(offers: seq<Entry>, o: Entry)
      ensures MergeAll(offers + [o]) == Merge(MergeAll(offers), o)
    {
      assert (offers + [o])[..|offers|] == offers;
    }

    /** Puts one subnet of this router in the table. */
    method AddLocalSubnet(s: Route) returns (ok: bool)
      modifies `fwrdTable
      ensures ok <==> SubnetIface(interfaces, s.prefix).Some?
      ensures ok ==> fwrdTable == Merge(old(fwrdTable),
                Entry(s.prefix, s.mask, s.nextHop, SubnetIface(interfaces, s.prefix).value, 0))
    {
      var place: Option<nat> := None;
      if |fwrdTable| != 0 {
        place := FtableContains(s.prefix, s.mask);
      }
      var iface := GetSubnetIf(s.prefix);
      if iface.None? {
        return false;
      }
      if place.Some? {
        fwrdTable := fwrdTable[place.value := fwrdTable[place.value].(nextHop := s.nextHop, iface := iface.value,
            numHops := 0)];
      } else {
        fwrdTable := fwrdTable + [Entry(s.prefix, s.mask, s.nextHop, iface.value, 0)];
      }
      return true;
    }

    /** Puts one subnet of another router in the table if it is new or closer. */
    method AddRemoteSubnet(s: Route, ip: Word, iface: string, hops: int)
      requires 0 < hops
      modifies `fwrdTable
      ensures fwrdTable == Merge(old(fwrdTable), Entry(s.prefix, s.mask, ip, iface, hops))
    {
      var place := FtableContains(s.prefix, s.mask);
      if place.None? {
        fwrdTable := fwrdTable + [Entry(s.prefix, s.mask, ip, iface, hops)];
      } else if fwrdTable[place.value].numHops > hops {
        fwrdTable := fwrdTable[place.value := fwrdTable[place.value].(nextHop := ip, iface := iface, numHops := hops)];
      }
    }

    /** Every subnet of `r` is offered at the distance of `r`. */
    ghost predicate AllOffered(offers: seq<Entry>, r: Router)
      reads `network, network`adjacencies, network`adjSize, network`subnets, network`subnetBufSize, r`subnets
      requires ValidNet()
    {
      forall s | s in r.subnets :: Covered(Links(), thisRouter, offers, r, s)
    }

    lemma OfferMade(offers: seq<Entry>, r: Router, s: Route, o: Entry)
      requires ValidNet() && HasKey(o, s) && NoFarther(Links(), thisRouter, o, r)
      ensures Covered(Links(), thisRouter, offers + [o], r, s)
    {
      assert o in offers + [o];
    }

    lemma OffersKept(a: seq<Entry>, b: seq<Entry>, r: Router)
      requires ValidNet() && AllOffered(a, r) && forall e | e in a :: e in b
      ensures AllOffered(b, r)
    {
      hide Covered;
      CoveredByMore(Links(), thisRouter, a, b);
    }

    /** The loop over the subnets of another router. */
    method AddRemoteSubnets(r: Router, y: Router, hops: int, ghost offers: seq<Entry>) returns (ghost out: seq<Entry>)
      requires ValidNet() && Merging(offers) && r in network && r != thisRouter
      requires 0 < hops && IsDistance(Links(), thisRouter, r, hops)
      requires y in Links()[thisRouter] && IsDistance(Links(), y, r, hops - 1)
      modifies `fwrdTable
      ensures Merging(out) && AllOffered(out, r) && forall e | e in offers :: e in out
    {
      hide IsDistance, Links, ValidNet, Genuine, Covered, NoFarther, MergeAll, Merge;
      ThisRouterIsNode();
      var ip, iface := GetIfAndNeighbor(y.rid);
      out := offers;
      for i := 0 to |r.subnets|
        invariant Merging(out) && forall e | e in offers :: e in out
        invariant forall k | 0 <= k < i :: Covered(Links(), thisRouter, out, r, r.subnets[k])
      {
        var s := r.subnets[i];
        AddRemoteSubnet(s, ip, iface, hops);
        ghost var o := Entry(s.prefix, s.mask, ip, iface, hops);
        RemoteOffer(Links(), thisRouter, Subs(), interfaces, RidOf, r, s, y, hops);
        OfferMade(out, r, s, o);
        OneMoreOffer(out, o);
        CoveredByMore(Links(), thisRouter, out, out + [o]);
        out := out + [o];
      }
    }

    /** The loop over this router's own subnets; stops the program on a subnet without interface. */
    method AddLocalSubnets(ghost offers: seq<Entry>) returns (ok: bool, ghost out: seq<Entry>)
      requires ValidNet() && Merging(offers)
      modifies `fwrdTable
      ensures ok <==> LocalSubnetsHaveIfaces()
      ensures ok ==> Merging(out) && AllOffered(out, thisRouter) && forall e | e in offers :: e in out
    {
      hide IsDistance, Links, ValidNet, Genuine, Covered, NoFarther, MergeAll, Merge;
      ThisRouterIsNode();
      out := offers;
      for i := 0 to |thisRouter.subnets|
        invariant Merging(out) && forall e | e in offers :: e in out
        invariant forall k | 0 <= k < i :: SubnetIface(interfaces, thisRouter.subnets[k].prefix).Some?
        invariant forall k | 0 <= k < i :: Covered(Links(), thisRouter, out, thisRouter, thisRouter.subnets[k])
      {
        var s := thisRouter.subnets[i];
        ok := AddLocalSubnet(s);
        if !ok {
          return;
        }
        ghost var o := Entry(s.prefix, s.mask, s.nextHop, SubnetIface(interfaces, s.prefix).value, 0);
        LocalOffer(Links(), thisRouter, Subs(), interfaces, RidOf, s);
        OfferMade(out, thisRouter, s, o);
        OneMoreOffer(out, o);
        CoveredByMore(Links(), thisRouter, out, out + [o]);
        out := out + [o];
      }
      ok := true;
    }

    /** Every subnet of this router lies on one of its interfaces, as update_ftable asserts. */
    ghost predicate LocalSubnetsHaveIfaces()
      reads `interfaces, thisRouter`subnets
    {
      forall s | s in thisRouter.subnets :: SubnetIface(interfaces, s.prefix).Some?
    }

    ghost predicate IsReachable(r: Router)
      reads `network, network`adjacencies, network`adjSize, network`subnets, network`subnetBufSize
      requires ValidNet()
    {
      r == thisRouter || Reachable(Links(), thisRouter, r)
    }

    /** One round of the loop of update_ftable: the subnets of one router. */
    method AddRouter(r: Router, ghost offers: seq<Entry>) returns (status: FtStatus, ghost more: seq<Entry>)
      requires ValidNet() && ShortestPaths() && r in network && Merging(offers)
      modifies `fwrdTable
      ensures status.Aborted? <==> r == thisRouter && !LocalSubnetsHaveIfaces()
      ensures status.Incomplete? <==> !IsReachable(r)
      ensures status.Complete? ==> Merging(more) && AllOffered(more, r) && forall e | e in offers :: e in more
    {
      hide IsDistance, Links, ValidNet, ShortestPaths, Merging, AllOffered, Reachable, LocalSubnetsHaveIfaces;
      more := offers;
      var nextHop, hops := FindNextHop(r);
      if nextHop == null {
        if hops == 0 {
          var ok;
          ok, more := AddLocalSubnets(offers);
          return if ok then Complete else Aborted, more;
        }
        return Incomplete, more;
      }
      more := AddRemoteSubnets(r, nextHop, hops, offers);
      return Complete, more;
    }

    /** Rebuilds the forwarding table from the marks left by Dijkstra; gives up at the first router
        without a path. */
    method UpdateFtable() returns (status: FtStatus)
      requires ValidNet() && ShortestPaths()
      modifies `fwrdTable
      ensures Computed(status)
    {
      hide IsReachable, Links, ValidNet, ShortestPaths, Merging, AllOffered, TableMatches, LocalSubnetsHaveIfaces;
      ThisRouterIsHead();
      fwrdTable := [];
      ghost var offers: seq<Entry> := [];
      NoOffers();
      var k := 0;
      while k < |network|
        invariant 0 <= k <= |network|
        invariant Merging(offers) && forall j | 0 <= j < k :: AllOffered(offers, network[j])
        invariant forall j | 0 <= j < k :: IsReachable(network[j])
        invariant 0 < k ==> LocalSubnetsHaveIfaces()
      {
        ghost var more;
        status, more := AddRouter(network[k], offers);
        if !status.Complete? {
          return;
        }
        forall j | 0 <= j < k
          ensures AllOffered(more, network[j])
        {
          OffersKept(offers, more, network[j]);
        }
        offers := more;
        k := k + 1;
      }
      TableIsBuilt(offers);
      return Complete;
    }

    lemma ThisRouterIsHead()
      requires ValidNet()
      ensures 0 < |network| && network[0] == thisRouter
      ensures forall k | 0 < k < |network| :: network[k] != thisRouter
    {
    }

    lemma NoOffers()
      requires ValidNet() && fwrdTable == []
      ensures Merging([])
    {
    }

    lemma TableIsBuilt(offers: seq<Entry>)
      requires ValidNet() && Merging(offers) && forall j | 0 <= j < |network| :: AllOffered(offers, network[j])
      ensures TableMatches()
    {
      hide Genuine, Covered, TableCorrect, MergeAll, Links;
      MergedTableCorrect(Links(), thisRouter, Subs(), interfaces, RidOf, offers);
    }

    /** The topology with routers named by their ids, as routers of a network share it. */
    ghost function RidLinks(): Graph<Word>
      reads `network, network`adjacencies, network`adjSize, network`subnets, network`subnetBufSize
      requires ValidNet()
    {
      map r | r in network :: r.rid := r.AdjIds()
    }

    ghost function RidSubs(): map<Word, seq<Route>>
      reads `network, network`adjacencies, network`adjSize, network`subnets, network`subnetBufSize
      requires ValidNet()
    {
      map r | r in network :: r.rid := r.subnets
    }

    lemma RidEdges(u: Router)
      requires ValidNet() && u in network
      ensures forall v | v in network :: v in u.Adj() <==> v.rid in RidLinks()[u.rid]
    {
      forall v | v in network
        ensures v in u.Adj() <==> v.rid in RidLinks()[u.rid]
      {
        if v.rid in RidLinks()[u.rid] {
          var x :| x in u.Adj() && x.rid == v.rid;
          SameRid(x, v);
        }
      }
    }

    lemma RidsRenameLinks()
      requires ValidNet()
      ensures Renames(Links(), RidLinks(), RidOf)
    {
      hide ValidNet;
      var g, h := Links(), RidLinks();
      forall u | u in g
        ensures u in network && RidOf(u) in h
        ensures forall v | v in g :: (v in g[u] <==> RidOf(v) in h[RidOf(u)]) && (RidOf(u) == RidOf(v) ==> u == v)
      {
        RidEdges(u);
        forall v | v in g
          ensures RidOf(u) == RidOf(v) ==> u == v
        {
          SameRid(u, v);
        }
      }
      forall x | x in h
        ensures exists u | u in g :: RidOf(u) == x
      {
        var r :| r in network && r.rid == x;
        assert RidOf(r) == x;
      }
    }

    lemma RidsRenameSubs()
      requires ValidNet()
      ensures RenamesSubnets(Subs(), RidSubs(), RidOf)
    {
      forall x | x in RidSubs()
        ensures exists u | u in Subs() :: RidOf(u) == x
      {
        var r :| r in network && r.rid == x;
        assert RidOf(r) == x;
      }
    }

    /** The table in terms of router ids. */
    lemma TableByRid()
      requires ValidNet() && TableMatches()
      ensures TableCorrect(RidLinks(), thisRouter.rid, RidSubs(), interfaces, Self, fwrdTable)
    {
      hide TableCorrect, Renames, RenamesSubnets;
      RidsRenameLinks();
      RidsRenameSubs();
      RenamedTable(Links(), RidLinks(), RidOf, thisRouter, Subs(), RidSubs(), interfaces, RidOf, Self, fwrdTable);
    }

    /** What the entries name: for an own subnet the interface on it, else an adjacent router by its address and the
        interface it was heard on. */
    lemma EntryLeaves(e: Entry)
      requires ValidNet() && TableMatches() && e in fwrdTable
      ensures e.numHops == 0 ==> exists s :: s in thisRouter.subnets && StaysOn(interfaces, e, s)
      ensures thisRouter.adjSize <= |thisRouter.adjacencies|
      ensures e.numHops != 0 ==>
                0 < e.numHops && exists y :: y in thisRouter.AdjIds() && LeavesTowards(interfaces, e, y)
    {
      hide TableCorrect, StaysOn, LeavesTowards, IsDistance;
      ThisRouterIsNode();
      TableByRid();
      EntriesLeave(RidLinks(), thisRouter.rid, RidSubs(), interfaces, Self, fwrdTable, e);
    }

    // ---- editing the topology ----

    /** The database that the routers of the network hold together. */
    ghost function Contents(): Topo
      reads `network, network`adjacencies, network`adjSize, network`subnets, network`subnetBufSize
      requires ValidNet()
    {
      Topo(RidLinks(), RidSubs())
    }

    ghost function Ids(): set<Word>
      reads `network
    {
      set r | r in network :: r.rid
    }

    /** `t` describes every router of the network. */
    ghost predicate Describes(t: Topo)
      reads `network, network`adjacencies, network`adjSize, network`subnets
    {
      && t.links.Keys == Ids() && t.subnets.Keys == Ids()
      && forall r | r in network :: DescribesRouter(t, r)
    }

    static ghost predicate DescribesRouter(t: Topo, r: Router)
      reads r`adjacencies, r`adjSize, r`subnets
    {
      r.adjSize <= |r.adjacencies| && LinksOf(t, r.rid) == r.AdjIds() && SubsOf(t, r.rid) == r.subnets
    }

    lemma ContentsDescribes()
      requires ValidNet()
      ensures Describes(Contents())
    {
      forall r | r in network
        ensures DescribesRouter(Contents(), r)
      {
      }
    }

    /** There is only one description. */
    lemma DescriptionIsContents(t: Topo)
      requires ValidNet() && Describes(t)
      ensures Contents() == t
    {
      ContentsDescribes();
      var u := Contents();
      hide ValidNet, Contents;
      forall id | id in Ids()
        ensures LinksOf(t, id) == LinksOf(u, id) && SubsOf(t, id) == SubsOf(u, id)
      {
        var r :| r in network && r.rid == id;
        assert DescribesRouter(t, r) && DescribesRouter(u, r);
      }
      SameByParts(t, u);
    }

    static lemma SameByParts(t: Topo, u: Topo)
      requires t.links.Keys == u.links.Keys && t.subnets.Keys == u.subnets.Keys && t.links.Keys == t.subnets.Keys
      requires forall id | id in t.links :: LinksOf(t, id) == LinksOf(u, id) && SubsOf(t, id) == SubsOf(u, id)
      ensures t == u
    {
      assert forall id | id in t.links :: t.links[id] == LinksOf(t, id) && u.links[id] == LinksOf(u, id);
      assert forall id | id in t.subnets :: t.subnets[id] == SubsOf(t, id) && u.subnets[id] == SubsOf(u, id);
      assert t.links == u.links && t.subnets == u.subnets;
    }

    lemma ContentsAt(h: Router)
      requires ValidNet() && h in network
      ensures h.Packed() && h.Adj() <= Nodes() && WellFormed(Contents()) && h.rid in Contents().links
      ensures LinksOf(Contents(), h.rid) == h.AdjIds() && SubsOf(Contents(), h.rid) == h.subnets
    {
      RidNodes();
      ContentsDescribes();
    }

    lemma RidNodes()
      requires ValidNet()
      ensures WellFormed(Contents()) && forall id :: id in Contents().links <==> exists r :: r in network && r.rid == id
    {
    }

    /** The ends of used slots are the ids listed. */
    lemma AdjOf(r: Router, x: Router)
      requires ValidNet() && r in network && x in network
      ensures r.adjSize <= |r.adjacencies| && (x in r.Adj() <==> x.rid in r.AdjIds())
    {
      if x.rid in r.AdjIds() {
        var y :| y in r.Adj() && y.rid == x.rid;
        SameRid(x, y);
      }
    }

    /** A router's part of the database is the same as before. */
    twostate predicate SameEntry(r: Router)
      reads r`adjacencies, r`adjSize, r`subnets
    {
      && r.adjSize <= |r.adjacencies| && old(r.adjSize <= |r.adjacencies|)
      && r.AdjIds() == old(r.AdjIds()) && r.subnets == old(r.subnets)
    }

    /** Editing one router keeps the invariant when its arrays stay packed and inside the network, and
        changes its part of the database only. */
    twostate lemma OneRouterEdited(h: Router)
      requires old(ValidNet()) && network == old(network) && h in network
      requires forall r | r in network && r != h ::
                 unchanged(r`adjacencies) && unchanged(r`adjSize) && unchanged(r`subnets) && unchanged(r`subnetBufSize)
      requires h.Packed() && h.Adj() <= Nodes()
      ensures ValidNet()
      ensures Contents() == SetSubs(SetLinks(old(Contents()), h.rid, h.AdjIds()), h.rid, h.subnets)
    {
      EditedIsValid(h);
      SameHost(h);
      OldDescription();
      var t := old(Contents());
      hide ValidNet, Contents, Describes, SameEntry, SetLinks, SetSubs;
      OneEntryEdited(t, h);
      DescriptionIsContents(SetSubs(SetLinks(t, h.rid, h.AdjIds()), h.rid, h.subnets));
    }

    twostate lemma EditedIsValid(h: Router)
      requires old(ValidNet()) && network == old(network) && h in network
      requires forall r | r in network && r != h ::
                 unchanged(r`adjacencies) && unchanged(r`adjSize) && unchanged(r`subnets) && unchanged(r`subnetBufSize)
      requires h.Packed() && h.Adj() <= Nodes()
      ensures ValidNet() && forall r | r in network && r != h :: SameEntry(r)
    {
    }

    twostate lemma OneEntryEdited(new t: Topo, h: Router)
      requires network == old(network) && h in network && old(Describes(t)) && h.adjSize <= |h.adjacencies|
      requires forall r | r in network :: r.rid == h.rid <==> r == h
      requires forall r | r in network && r != h :: SameEntry(r)
      ensures Describes(SetSubs(SetLinks(t, h.rid, h.AdjIds()), h.rid, h.subnets))
    {
      var u := SetSubs(SetLinks(t, h.rid, h.AdjIds()), h.rid, h.subnets);
      assert h.rid in Ids();
      forall r | r in network
        ensures DescribesRouter(u, r)
      {
        assert old(DescribesRouter(t, r)) && (r != h ==> SameEntry(r));
      }
    }

    /** Before, too, the database described the network. */
    twostate lemma OldDescription()
      requires old(ValidNet())
      ensures old(Describes(Contents()))
    {
      forall r | r in old(network)
        ensures old(DescribesRouter(Contents(), r))
      {
      }
    }

    method RemoveRtAdjUsingId(h: Router, id: Word)
      requires ValidNet() && h in network
      modifies h`adjacencies, h`adjSize
      ensures ValidNet() && Contents() == SetLinks(old(Contents()), h.rid, LinksOf(old(Contents()), h.rid) - {id})
    {
      hide ValidNet, Contents;
      ContentsAt(h);
      SetSame(Contents(), h.rid);
      h.RemoveAdjacency(id);
      OneRouterEdited(h);
    }

    method RemoveRtSnUsingId(h: Router, id: Word)
      requires ValidNet() && h in network
      modifies h`subnets
      ensures ValidNet() && Contents() ==
              SetSubs(old(Contents()), h.rid, RemoveFirst(SubsOf(old(Contents()), h.rid), id))
    {
      hide ValidNet, Contents;
      ContentsAt(h);
      SetSame(Contents(), h.rid);
      RemoveFirstIsNoLonger(h.subnets, id);
      h.RemoveSubnetById(id);
      OneRouterEdited(h);
    }

    lemma RemoveFirstIsNoLonger(s: seq<Route>, id: Word)
      ensures |RemoveFirst(s, id)| <= |s|
    {
    }

    /** Adds the adjacency unless a router with that id is there already. */
    method AddAdjacencyIfNew(h: Router, con: Router)
      requires ValidNet() && h in network && con in network
      modifies h`adjacencies, h`adjSize
      ensures ValidNet() && Contents() == SetLinks(old(Contents()), h.rid, LinksOf(old(Contents()), h.rid) + {con.rid})
    {
      hide ValidNet, Contents;
      ContentsAt(h);
      SetSame(Contents(), h.rid);
      var has := h.HasAdjacency(con);
      if !has {
        assert forall r | r in h.Adj() :: r.rid in h.AdjIds();
        h.AddAdjacency(con);
        OneRouterEdited(h);
      } else {
        assert LinksOf(Contents(), h.rid) + {con.rid} == LinksOf(Contents(), h.rid);
      }
    }

    method AdjListContains(id: Word) returns (r: Router?)
      ensures r != null ==> r in network && r.rid == id
      ensures r == null ==> forall x | x in network :: x.rid != id
    {
      for i := 0 to |network|
        invariant forall k | 0 <= k < i :: network[k].rid != id
      {
        if network[i].rid == id {
          return network[i];
        }
      }
      return null;
    }

    method AddNewRouter(id: Word, now: int) returns (r: Router)
      requires ValidNet() && forall x | x in network :: x.rid != id
      modifies `network
      ensures fresh(r) && r.rid == id && network == old(network) + [r] && r.expired == now + 90
      ensures r.lastSeq == 0 && r.prev == null
      ensures ValidNet() && Contents() == Added(old(Contents()), id)
    {
      hide ValidNet, Contents;
      r := new Router(id, now + 3 * OSPF_DEFAULT_LSUINT);
      network := network + [r];
      RouterAdded(r);
    }

    twostate lemma RouterAdded(new r: Router)
      requires old(ValidNet()) && network == old(network) + [r] && r !in old(network)
      requires forall x | x in old(network) :: x.rid != r.rid
      requires forall x | x in old(network) ::
                 unchanged(x`adjacencies) && unchanged(x`adjSize) && unchanged(x`subnets) && unchanged(x`subnetBufSize)
      requires r.Packed() && r.Adj() == {} && r.subnets == []
      ensures ValidNet() && Contents() == Added(old(Contents()), r.rid)
    {
      NewNodeIsValid(r);
      OldDescription();
      assert r.AdjIds() == {};
      hide ValidNet, Contents, Describes, SameEntry, Added;
      OneEntryAdded(old(Contents()), r);
      DescriptionIsContents(Added(old(Contents()), r.rid));
    }

    twostate lemma NewNodeIsValid(new r: Router)
      requires old(ValidNet()) && network == old(network) + [r] && r !in old(network)
      requires forall x | x in old(network) :: x.rid != r.rid
      requires forall x | x in old(network) ::
                 unchanged(x`adjacencies) && unchanged(x`adjSize) && unchanged(x`subnets) && unchanged(x`subnetBufSize)
      requires r.Packed() && r.Adj() == {} && r.subnets == []
      ensures ValidNet() && forall x | x in old(network) :: SameEntry(x)
    {
    }

    twostate lemma OneEntryAdded(t: Topo, new r: Router)
      requires network == old(network) + [r] && old(Describes(t)) && r.adjSize <= |r.adjacencies|
      requires (forall x | x in old(network) :: x.rid != r.rid) && r.AdjIds() == {} && r.subnets == []
      requires forall x | x in old(network) :: SameEntry(x)
      ensures Describes(Added(t, r.rid))
    {
      assert Ids() == old(Ids()) + {r.rid};
      assert r.rid !in t.links;
      forall x | x in network
        ensures DescribesRouter(Added(t, r.rid), x)
      {
        if x != r {
          assert old(DescribesRouter(t, x)) && SameEntry(x);
        }
      }
    }

    /** Takes in one route advertised by `host`, as far as the host's own arrays go. */
    method LearnAt(host: Router, route: Route) returns (clash: bool)
      requires ValidNet() && host in network
      modifies host`adjacencies, host`adjSize, host`subnets, host`subnetBufSize
      ensures ValidNet() && clash == Clashes(old(host.subnets), route)
      ensures Contents() == LearnedAt(old(Contents()), host.rid, route)
    {
      hide ValidNet, Contents, Clashes, Learned;
      ContentsAt(host);
      SetSame(Contents(), host.rid);
      clash := host.Learn(route);
      if !clash {
        assert host.Adj() == old(host.Adj()) && host.AdjIds() == old(host.AdjIds());
      }
      OneRouterEdited(host);
    }

    method LearnBackAt(con: Router, route: Route) returns (clash: bool)
      requires ValidNet() && con in network
      modifies con`adjacencies, con`adjSize, con`subnets, con`subnetBufSize
      ensures ValidNet() && clash == ClashesBack(old(con.subnets), route)
      ensures Contents() == LearnedBackAt(old(Contents()), con.rid, route)
    {
      hide ValidNet, Contents, ClashesBack, LearnedBack;
      ContentsAt(con);
      SetSame(Contents(), con.rid);
      clash := con.LearnBack(route);
      if !clash {
        assert con.Adj() == old(con.Adj()) && con.AdjIds() == old(con.AdjIds());
      }
      OneRouterEdited(con);
    }

    /** The network has only gained fresh routers, at its end. */
    twostate predicate Extended(now: int)
      reads `network, network`lastSeq, network`expired, network`prev
    {
      && old(network) <= network
      && forall r | r in network && r !in old(network) ::
           fresh(r) && r.lastSeq == 0 && r.prev == null && r.expired == now + 3 * OSPF_DEFAULT_LSUINT
    }

    /** Finds or creates the router a route leads to, and links it with `host` both ways. */
    method ConnectTo(host: Router, id: Word, now: int) returns (con: Router)
      requires ValidNet() && host in network
      modifies `network, Nodes()`adjacencies, Nodes()`adjSize
      ensures ValidNet() && Extended(now) && con in network && con.rid == id
      ensures Contents() == Connected(old(Contents()), host.rid, id)
    {
      hide ValidNet, Contents;
      var found := AdjListContains(id);
      if found == null {
        con := AddNewRouter(id, now);
      } else {
        con := found;
        ContentsAt(con);
      }
      AddAdjacencyIfNew(host, con);
      AddAdjacencyIfNew(con, host);
    }

    /** One round of the loop of add_to_existing_router. */
    method TakeRoute(host: Router, route: Route, now: int)
      requires ValidNet() && host in network
      modifies `network, Nodes()`adjacencies, Nodes()`adjSize, Nodes()`subnets, Nodes()`subnetBufSize
      ensures ValidNet() && Extended(now) && Contents() == Took(old(Contents()), host.rid, route)
    {
      hide ValidNet, Contents, Clashes, ClashesBack, LearnedAt, LearnedBackAt, Connected, SubsOf, LinksOf;
      ContentsAt(host);
      var clash := LearnAt(host, route);
      if clash || route.rid == 0 {
        return;
      }
      var con := ConnectTo(host, route.rid, now);
      clash := LearnBackAt(con, route.(rid := host.rid));
    }

    /** Takes in the routes advertised by `host` one by one. */
    method AddToExistingRouter(host: Router, routes: seq<Route>, now: int)
      requires ValidNet() && host in network
      modifies host`expired
      modifies `network, Nodes()`adjacencies, Nodes()`adjSize, Nodes()`subnets, Nodes()`subnetBufSize
      ensures ValidNet() && Extended(now) && host.expired == now + 3 * OSPF_DEFAULT_LSUINT
      ensures Contents() == TookAll(old(Contents()), host.rid, routes)
    {
      hide ValidNet, Contents, Took;
      host.expired := now + 3 * OSPF_DEFAULT_LSUINT;
      for i := 0 to |routes|
        invariant ValidNet() && Extended(now) && host.expired == now + 3 * OSPF_DEFAULT_LSUINT
        invariant Contents() == TookAll(old(Contents()), host.rid, routes[..i])
      {
        assert routes[..i + 1][..i] == routes[..i];
        TakeRoute(host, routes[i], now);
      }
      assert routes[..|routes|] == routes;
    }

    method SubInAdv(advs: seq<Route>, s: Route) returns (found: bool)
      ensures found == Advertised(s, advs)
    {
      for i := 0 to |advs|
        invariant forall k | 0 <= k < i :: !SameSubnet(s, advs[k])
      {
        if SameSubnet(s, advs[i]) {
          return true;
        }
      }
      return false;
    }

    /** Withdraws the first subnet of `host` attached to router `id`, and the link between the two. */
    method WithdrawSubnet(host: Router, id: Word)
      requires ValidNet() && host in network
      modifies Nodes()`adjacencies, Nodes()`adjSize, Nodes()`subnets
      ensures ValidNet() && Contents() == WithdrawnAt(old(Contents()), host.rid, id)
    {
      hide ValidNet, Contents, RemoveFirst, LinksOf, SubsOf;
      var nbor := AdjListContains(id);
      RidNodes();
      RemoveRtSnUsingId(host, id);
      if nbor != null {
        RemoveRtSnUsingId(nbor, host.rid);
        RemoveRtAdjUsingId(nbor, host.rid);
        RemoveRtAdjUsingId(host, nbor.rid);
      }
    }

    /** The loop of add_to_top over the host's subnets: withdraws those not advertised. */
    method PruneHost(host: Router, routes: seq<Route>)
      requires ValidNet() && host in network
      modifies Nodes()`adjacencies, Nodes()`adjSize, Nodes()`subnets
      ensures ValidNet() && host.rid in old(Contents()).links
              && Contents() == Pruned(old(Contents()), host.rid, 0, routes)
    {
      hide ValidNet, Contents, WithdrawnAt, Withdraw, Advertised, Pruned;
      ContentsAt(host);
      var i := 0;
      while i < |host.subnets|
        invariant 0 <= i && ValidNet() && host.rid in Contents().links
        invariant Pruned(Contents(), host.rid, i, routes) == Pruned(old(Contents()), host.rid, 0, routes)
        decreases |host.subnets|, |host.subnets| - i
      {
        ContentsAt(host);
        PrunedAt(Contents(), host.rid, i, routes);
        WithdrawnSubs(Contents(), host.rid, host.subnets[i].rid);
        var found := SubInAdv(routes, host.subnets[i]);
        if !found {
          WithdrawSubnet(host, host.subnets[i].rid);
          ContentsAt(host);
          i := i - 1;
        }
        i := i + 1;
      }
      ContentsAt(host);
      PrunedAt(Contents(), host.rid, i, routes);
    }

    /** The router with the given id, added if it is new. */
    method HostOf(id: Word, now: int) returns (host: Router)
      requires ValidNet()
      modifies `network
      ensures ValidNet() && Extended(now) && host in network && host.rid == id
      ensures Contents() == Added(old(Contents()), id)
    {
      hide ValidNet, Contents;
      var found := AdjListContains(id);
      if found == null {
        host := AddNewRouter(id, now);
      } else {
        host := found;
        ContentsAt(host);
      }
    }

    /** Runs dijkstra and update_ftable. */
    method Recompute() returns (status: FtStatus)
      requires ValidNet()
      modifies `fwrdTable, Nodes()`known, Nodes()`dist, Nodes()`prev
      ensures ValidNet() && Contents() == old(Contents()) && ShortestPaths() && Computed(status)
    {
      hide ValidNet, Links, ShortestPaths, Computed, Contents;
      Dijkstra();
      status := UpdateFtable();
    }

    /** Brings an LSU into the topology and recomputes routes. */
    method AddToTop(hostRid: Word, routes: seq<Route>, now: int) returns (status: FtStatus)
      requires ValidNet()
      modifies `network, `fwrdTable, Nodes()`expired, Nodes()`adjacencies, Nodes()`adjSize
      modifies Nodes()`subnets, Nodes()`subnetBufSize, Nodes()`known, Nodes()`dist, Nodes()`prev
      ensures ValidNet() && old(network) <= network && ShortestPaths() && Computed(status)
      ensures Contents() == AfterLsu(old(Contents()), hostRid, routes, initTime < now)
      ensures forall r | r in network && r !in old(network) :: fresh(r) && r.lastSeq == 0
      ensures forall r | r in network && (r.rid == hostRid || r !in old(network)) ::
              r.expired == now + 90
      ensures forall r | r in old(network) && r.rid != hostRid :: r.expired == old(r.expired)
    {
      hide ValidNet, Contents, TookAll, Pruned, ShortestPaths, Computed, Added;
      var host := HostOf(hostRid, now);
      AddToExistingRouter(host, routes, now);
      if now > initTime {
        PruneHost(host, routes);
      }
      SameHost(host);
      status := Recompute();
    }

    lemma SameHost(host: Router)
      requires ValidNet() && host in network
      ensures forall r | r in network :: r.rid == host.rid <==> r == host
    {
    }

    /** What update_ftable has left behind. */
    ghost predicate Computed(status: FtStatus)
      reads this, network`adjacencies, network`adjSize, network`subnets, network`subnetBufSize, thisRouter`subnets
      requires ValidNet()
    {
      && (status.Aborted? <==> !LocalSubnetsHaveIfaces())
      && (status.Complete? <==> LocalSubnetsHaveIfaces() && forall r | r in network :: IsReachable(r))
      && (status.Complete? ==> TableMatches())
    }

    lemma DistinctRouters()
      requires ValidNet()
      ensures forall i, j | 0 <= i < j < |network| :: network[i] != network[j]
    {
    }

    /** Takes the first subnet leading to `rt`, and the adjacency to it, out of one router. */
    method Detach(r: Router, rt: Router)
      requires ValidNet() && r in network
      modifies r`adjacencies, r`adjSize, r`subnets
      ensures ValidNet() && r.adjSize <= |r.adjacencies|
      ensures r.AdjIds() == old(r.AdjIds()) - {rt.rid} && r.subnets == RemoveFirst(old(r.subnets), rt.rid)
    {
      hide ValidNet, Contents, RemoveFirst;
      ContentsAt(r);
      RemoveRtSnUsingId(r, rt.rid);
      RemoveRtAdjUsingId(r, rt.rid);
      ContentsAt(r);
    }

    /** The walk of remove_from_topo over the whole network. */
    method DetachAll(rt: Router)
      requires ValidNet() && rt in network
      modifies Nodes()`adjacencies, Nodes()`adjSize, Nodes()`subnets
      ensures ValidNet() && forall r | r in network :: IsDetached(r, rt.rid)
    {
      hide ValidNet, RemoveFirst, IsDetached, Router.AdjIds, Router.Adj;
      assert forall j | 0 <= j < |network| :: Untouched(network[j]);
      hide Untouched;
      SlotsFit();
      DistinctRouters();
      for k := 0 to |network|
        invariant ValidNet() && forall j | 0 <= j < k :: IsDetached(network[j], rt.rid)
        invariant forall j | k <= j < |network| :: Untouched(network[j])
      {
        assert network[k] in network && old(network[k].adjSize <= |network[k].adjacencies|);
        StillOld(network[k]);
        Detach(network[k], rt);
        NowDetached(network[k], rt.rid);
      }
    }

    lemma SlotsFit()
      requires ValidNet()
      ensures forall r | r in network :: r.adjSize <= |r.adjacencies|
    {
    }

    twostate lemma StillOld(r: Router)
      requires Untouched(r) && old(r.adjSize <= |r.adjacencies|)
      ensures r.adjSize <= |r.adjacencies| && r.AdjIds() == old(r.AdjIds()) && r.subnets == old(r.subnets)
    {
    }

    twostate lemma NowDetached(r: Router, new id: Word)
      requires r.adjSize <= |r.adjacencies| && old(r.adjSize <= |r.adjacencies|)
      requires r.AdjIds() == old(r.AdjIds()) - {id} && r.subnets == RemoveFirst(old(r.subnets), id)
      ensures IsDetached(r, id)
    {
    }

    twostate predicate Untouched(r: Router)
      reads r`adjacencies, r`adjSize, r`subnets
    {
      unchanged(r`adjacencies) && unchanged(r`adjSize) && unchanged(r`subnets)
    }

    /** Router `r` has lost its link to router `id` and one subnet leading there. */
    twostate predicate IsDetached(r: Router, id: Word)
      reads r`adjacencies, r`adjSize, r`subnets
    {
      && r.adjSize <= |r.adjacencies| && old(r.adjSize <= |r.adjacencies|)
      && r.AdjIds() == old(r.AdjIds()) - {id} && r.subnets == RemoveFirst(old(r.subnets), id)
    }

    /** Takes a router out of every adjacency array, and one subnet leading to it out of each router. */
    method RemoveFromTopo(rt: Router)
      requires ValidNet() && rt in network
      modifies Nodes()`adjacencies, Nodes()`adjSize, Nodes()`subnets
      ensures ValidNet() && forall r | r in network && r != rt :: IsDetached(r, rt.rid)
      ensures rt.adjSize <= |rt.adjacencies| && rt.rid !in rt.AdjIds()
    {
      hide ValidNet, Contents, RemoveFirst;
      ContentsAt(rt);
      rt.subnets := [];
      OneRouterEdited(rt);
      DetachAll(rt);
    }

    /** Unchains the router at place `i`, to which no adjacency points any more. */
    method Unchain(i: nat)
      requires ValidNet() && 0 < i < |network|
      requires forall r | r in network :: r.adjSize <= |r.adjacencies| && network[i].rid !in r.AdjIds()
      modifies `network
      ensures network == old(network)[..i] + old(network)[i + 1..] && ValidNet()
      ensures forall r :: r in network <==> r in old(network) && r != old(network[i])
    {
      ghost var rt := network[i];
      DistinctRouters();
      OthersRemain(network, i);
      forall r | r in network
        ensures r.Packed() && rt !in r.Adj() && r.Adj() <= Nodes()
      {
        ContentsAt(r);
        AdjOf(r, rt);
      }
      network := network[..i] + network[i + 1..];
      StillValid(rt);
    }

    twostate lemma StillValid(rt: Router)
      requires 0 < |network| && network[0] == thisRouter && old(ValidNet())
      requires forall r :: r in network <==> r in old(network) && r != rt
      requires forall i, j | 0 <= i < j < |network| :: network[i].rid != network[j].rid
      requires forall r | r in old(network) :: r.Packed() && rt !in r.Adj() && r.Adj() <= old(Nodes())
      ensures ValidNet()
    {
      assert forall r | r in network :: r in Nodes();
      assert forall x | x in Nodes() :: x in network;
    }

    lemma OthersRemain(s: seq<Router>, i: nat)
      requires i < |s| && forall j, k | 0 <= j < k < |s| :: s[j] != s[k]
      ensures forall x :: x in s[..i] + s[i + 1..] <==> x in s && x != s[i]
    {
      var t := s[..i] + s[i + 1..];
      forall x | x in s && x != s[i]
        ensures x in t
      {
        var k :| 0 <= k < |s| && s[k] == x;
        assert t[if k < i then k else k - 1] == x;
      }
    }

    /** Drops the router at place `i` from the topology and the list. */
    method DropRouter(i: nat)
      requires ValidNet() && 0 < i < |network|
      modifies `network, Nodes()`adjacencies, Nodes()`adjSize, Nodes()`subnets
      ensures network == old(network)[..i] + old(network)[i + 1..]
      ensures ValidNet() && Contents() == Dropped(old(Contents()), old(network[i]).rid)
    {
      ContentsDescribes();
      hide ValidNet, Contents, IsDetached, Describes;
      ghost var rt := network[i];
      SameHost(rt);
      RemoveFromTopo(network[i]);
      NoneLeadsTo(rt);
      Unchain(i);
      OneEntryDropped(old(Contents()), rt);
      DescriptionIsContents(Dropped(old(Contents()), rt.rid));
    }

    twostate lemma NoneLeadsTo(rt: Router)
      requires network == old(network) && forall r | r in network && r != rt :: IsDetached(r, rt.rid)
      requires rt.adjSize <= |rt.adjacencies| && rt.rid !in rt.AdjIds()
      ensures forall r | r in network :: r.adjSize <= |r.adjacencies| && rt.rid !in r.AdjIds()
    {
      hide RemoveFirst;
    }

    twostate lemma OneEntryDropped(new t: Topo, rt: Router)
      requires rt in old(network) && old(Describes(t))
      requires forall r :: r in network <==> r in old(network) && r != rt
      requires forall r | r in network :: IsDetached(r, rt.rid)
      requires forall r | r in old(network) :: r.rid == rt.rid <==> r == rt
      ensures Describes(Dropped(t, rt.rid))
    {
      hide RemoveFirst;
      assert Ids() == old(Ids()) - {rt.rid};
      forall r | r in network
        ensures DescribesRouter(Dropped(t, rt.rid), r)
      {
        assert old(DescribesRouter(t, r)) && IsDetached(r, rt.rid);
      }
    }

    /** Whether a router stays when expired ones are dropped at time `now`. */
    ghost predicate Stays(r: Router, now: int)
      reads r`expired
    {
      r == thisRouter || now < r.expired
    }

    /** Those of the routers that stay, and the ids of those that do not. */
    ghost function Kept(s: seq<Router>, now: int): seq<Router>
      reads s`expired
    {
      if s == [] then []
      else Kept(s[..|s| - 1], now) + if Stays(s[|s| - 1], now) then [s[|s| - 1]] else []
    }

    ghost function Expired(s: seq<Router>, now: int): seq<Word>
      reads s`expired
    {
      if s == [] then []
      else Expired(s[..|s| - 1], now) + if Stays(s[|s| - 1], now) then [] else [s[|s| - 1].rid]
    }

    lemma {:induction false} KeptMembers(s: seq<Router>, now: int, r: Router)
      ensures r in Kept(s, now) <==> r in s && (r == thisRouter || now < r.expired)
    {
      if s != [] {
        KeptMembers(s[..|s| - 1], now, r);
      }
    }

    /** Router `id` is in the list, is not this one, and has expired. */
    ghost predicate HasExpired(s: seq<Router>, id: Word, now: int)
      reads s`expired
    {
      exists r :: r in s && r.rid == id && r != thisRouter && r.expired <= now
    }

    lemma {:induction false} ExpiredMembers(s: seq<Router>, now: int, id: Word)
      ensures id in Expired(s, now) <==> HasExpired(s, id, now)
    {
      if s != [] {
        var n := |s| - 1;
        ExpiredMembers(s[..n], now, id);
        assert forall r :: r in s <==> r in s[..n] || r == s[n];
      }
    }

    lemma {:induction false} ExpiredOnce(s: seq<Router>, now: int)
      requires forall i, j | 0 <= i < j < |s| :: s[i].rid != s[j].rid
      ensures AllDistinct(Expired(s, now))
    {
      if s != [] {
        var n := |s| - 1;
        ExpiredOnce(s[..n], now);
        ExpiredMembers(s[..n], now, s[n].rid);
      }
    }

    /** The check of the list keeps this router and those that have not expired, and drops the others, each once. */
    lemma KeptOrExpired(now: int)
      requires ValidNet()
      ensures forall r :: r in Kept(network, now) <==> r in network && (r == thisRouter || now < r.expired)
      ensures forall id :: id in Expired(network, now) <==> HasExpired(network, id, now)
      ensures AllDistinct(Expired(network, now))
    {
      hide Kept, Expired, HasExpired;
      forall r: Router
        ensures r in Kept(network, now) <==> r in network && (r == thisRouter || now < r.expired)
      {
        KeptMembers(network, now, r);
      }
      forall id: Word
        ensures id in Expired(network, now) <==> HasExpired(network, id, now)
      {
        ExpiredMembers(network, now, id);
      }
      ExpiredOnce(network, now);
    }

    /** Drops every expired router except this one, in the order of the list, and recomputes the routes
        if any was dropped. */
    method CheckTopInvalid(now: int) returns (changed: bool, status: FtStatus)
      requires ValidNet()
      modifies `network, `fwrdTable, Nodes()`adjacencies, Nodes()`adjSize, Nodes()`subnets
      modifies Nodes()`known, Nodes()`dist, Nodes()`prev
      ensures ValidNet() && network == old(Kept(network, now)) && Nodes() <= old(Nodes())
      ensures Contents() == DroppedAll(old(Contents()), old(Expired(network, now)))
      ensures changed <==> old(Expired(network, now)) != []
      ensures changed ==> ShortestPaths() && Computed(status)
      ensures !changed ==> network == old(network) && fwrdTable == old(fwrdTable)
      ensures !changed ==> forall r | r in network :: r.prev == old(r.prev)
    {
      hide ValidNet, Contents, ShortestPaths, Computed, DroppedAll, Kept, Expired;
      status := Complete;
      changed := DropExpired(now);
      if changed {
        status := Recompute();
      }
    }

    /** The walk of check_top_invalid over the list. */
    method DropExpired(now: int) returns (changed: bool)
      requires ValidNet()
      modifies `network, Nodes()`adjacencies, Nodes()`adjSize, Nodes()`subnets
      ensures ValidNet() && network == old(Kept(network, now)) && Nodes() <= old(Nodes())
      ensures Contents() == DroppedAll(old(Contents()), old(Expired(network, now)))
      ensures changed <==> old(Expired(network, now)) != []
      ensures !changed ==> network == old(network)
    {
      hide ValidNet, Contents, Dropped, DroppedAll, Stays, Kept, Expired;
      changed := false;
      ghost var all := network;
      ghost var j := 0;
      ghost var kept, gone := [], [];
      NoneSeen(Contents(), now);
      var i := 0;
      while i < |network|
        invariant ValidNet() && 0 <= j <= |all| && Nodes() <= old(Nodes())
        invariant kept == old(Kept(all[..j], now)) && gone == old(Expired(all[..j], now))
        invariant i == |kept| && network == kept + all[j..]
        invariant Contents() == DroppedAll(old(Contents()), gone)
        invariant changed <==> gone != []
        invariant !changed ==> network == all
        decreases |network| - i
      {
        ThisRouterIsHead();
        SameRid(network[i], thisRouter);
        OneMoreSeen(all, j, now);
        NextInList(kept, all, j);
        DroppedOneMore(old(Contents()), gone, network[i].rid);
        if network[i].expired <= now && network[i].rid != thisRouter.rid {
          gone := gone + [network[i].rid];
          DropRouter(i);
          changed := true;
        } else {
          kept := kept + [network[i]];
          i := i + 1;
        }
        j := j + 1;
      }
      assert all[..j] == all;
    }

    static lemma NextInList(kept: seq<Router>, all: seq<Router>, j: nat)
      requires j < |all|
      ensures var s, i := kept + all[j..], |kept|;
              && s[i] == all[j] && s[..i] + s[i + 1..] == kept + all[j + 1..] && s == (kept + [all[j]]) + all[j + 1..]
    {
    }

    lemma NoneSeen(t: Topo, now: int)
      ensures Kept([], now) == [] && Expired([], now) == [] && DroppedAll(t, []) == t
    {
    }

    twostate lemma OneMoreSeen(s: seq<Router>, new j: nat, new now: int)
      requires j < |s| && s[j].expired == old(s[j].expired)
      ensures var stays := s[j] == thisRouter || now < s[j].expired;
              && old(Kept(s[..j + 1], now)) == old(Kept(s[..j], now)) + (if stays then [s[j]] else [])
              && old(Expired(s[..j + 1], now)) == old(Expired(s[..j], now)) + if stays then [] else [s[j].rid]
    {
      assert s[..j + 1][..j] == s[..j];
    }

    /** The sequence number stored for a router, or 0 when the router is unknown. */
    ghost function SequenceOf(id: Word): bv16
      reads `network, network`lastSeq
    {
      if exists r :: r in network && r.rid == id then
        (var r :| r in network && r.rid == id; r.lastSeq)
      else 0
    }

    method GetSequence(id: Word) returns (seq_: bv16)
      requires ValidNet()
      ensures seq_ == SequenceOf(id)
    {
      for i := 0 to |network|
        invariant forall k | 0 <= k < i :: network[k].rid != id
      {
        if network[i].rid == id {
          forall r | r in network && r.rid == id
            ensures r == network[i]
          {
            SameRid(r, network[i]);
          }
          return network[i].lastSeq;
        }
      }
      return 0;
    }

    /** Stores a sequence number if the router is known. */
    method SetSequence(id: Word, seq_: bv16)
      requires ValidNet()
      modifies Nodes()`lastSeq
      ensures forall r | r in network :: r.lastSeq == if r.rid == id then seq_ else old(r.lastSeq)
    {
      for i := 0 to |network|
        invariant forall k | 0 <= k < i :: network[k].rid != id
        invariant forall r | r in network :: r.lastSeq == old(r.lastSeq)
      {
        if network[i].rid == id {
          forall r | r in network && r.rid == id
            ensures r == network[i]
          {
            SameRid(r, network[i]);
          }
          network[i].lastSeq := seq_;
          break;
        }
      }
    }

    lemma SequenceIs(r: Router)
      requires ValidNet() && r in network
      ensures SequenceOf(r.rid) == r.lastSeq
    {
      forall x | x in network && x.rid == r.rid
        ensures x == r
      {
        SameRid(x, r);
      }
    }

    /** Sends an LSU on, with all it carries, to every neighbour but the one it came from, unless a time to live ran
        out. */
    method ForwardLsu(p: Lsu) returns (sent: seq<Lsu>)
      ensures sent == Forwarded(interfaces, p)
      ensures forall c | c in sent :: c.rid == p.rid && c.seq_ == p.seq_ && c.advs == p.advs
    {
      hide Copies, Dec8;
      var q := p.(ttl := Dec8(p.ttl), ipTtl := Dec8(p.ipTtl));
      CopiesCarry(interfaces, q, Some(p.src));
      sent := [];
      if q.ttl > 0 && q.ipTtl > 0 {
        sent := SendOthers(q, p.src);
      }
    }

    /** The loop of forward_lsu over interfaces and neighbours. */
    method SendOthers(q: Lsu, from: Word) returns (sent: seq<Lsu>)
      ensures sent == Copies(interfaces, q, Some(from))
    {
      hide Copies, CopiesOn;
      sent := [];
      var i := 0;
      assert interfaces[0..] == interfaces;
      while i < |interfaces|
        invariant 0 <= i <= |interfaces|
        invariant Copies(interfaces, q, Some(from)) == sent + Copies(interfaces[i..], q, Some(from))
      {
        var f := interfaces[i];
        ghost var before := sent;
        var j := 0;
        CopiesFrom(interfaces, q, Some(from), i);
        assert f.neighbors[0..] == f.neighbors;
        while j < |f.neighbors|
          invariant 0 <= j <= |f.neighbors|
          invariant before + CopiesOn(f, f.neighbors, q, Some(from)) ==
                    sent + CopiesOn(f, f.neighbors[j..], q, Some(from))
        {
          CopiesOnFrom(f, q, Some(from), j);
          if !(f.neighbors[j].ip == from) {
            sent := sent + [q.(src := f.address, dst := f.neighbors[j].ip)];
          }
          j := j + 1;
        }
        CopiesOnFrom(f, q, Some(from), j);
        assert sent == before + CopiesOn(f, f.neighbors, q, Some(from));
        i := i + 1;
      }
      CopiesFrom(interfaces, q, Some(from), i);
    }

    /** Handles an LSU: drops this router's own and repeated ones, else updates the topology, stores the
        sequence number and forwards the packet. */
    method HandleLsu(p: Lsu, now: int) returns (status: FtStatus, accepted: bool, sent: seq<Lsu>)
      requires ValidNet()
      modifies `network, `fwrdTable, Nodes()
      ensures ValidNet() && old(network) <= network && forall r | r in network && r !in old(network) :: fresh(r)
      ensures var isNew := p.rid != thisRouter.rid && old(SequenceOf(p.rid)) != p.seq_;
              && (!isNew ==> network == old(network) && Contents() == old(Contents()) && !accepted && !status.Aborted?)
              && (isNew ==> Contents() == AfterLsu(old(Contents()), p.rid, p.advs, initTime < now))
              && (isNew ==> ShortestPaths() && Computed(status) && (accepted <==> !status.Aborted?))
      ensures accepted ==> SequenceOf(p.rid) == p.seq_
      ensures !accepted && !status.Aborted? ==> SequenceOf(p.rid) == old(SequenceOf(p.rid))
      ensures forall r | r in old(network) && (r.rid != p.rid || !accepted) :: r.lastSeq == old(r.lastSeq)
      ensures !accepted && !status.Aborted? ==> forall r | r in network :: r.prev == old(r.prev)
      ensures sent == if accepted then Forwarded(interfaces, p) else []
    {
      hide ValidNet, Contents, SequenceOf, ShortestPaths, Computed, Forwarded, AfterLsu;
      status := Complete;
      if p.rid == thisRouter.rid {
        return Complete, false, [];
      }
      var oldSeq := GetSequence(p.rid);
      if oldSeq == p.seq_ {
        return Complete, false, [];
      }
      HostIsIn(p, now);
      status := AddToTop(p.rid, p.advs, now);
      if status.Aborted? {
        return status, false, [];
      }
      SetSequence(p.rid, p.seq_);
      SequenceStored(p.rid, p.seq_);
      sent := ForwardLsu(p);
      accepted := true;
    }

    /** The originator is in the network once its LSU has been taken in. */
    lemma HostIsIn(p: Lsu, now: int)
      requires ValidNet()
      ensures p.rid in AfterLsu(Contents(), p.rid, p.advs, initTime < now).links
    {
      RidNodes();
      hide ValidNet, Contents;
      AfterLsuWellFormed(Contents(), p.rid, p.advs, initTime < now);
    }

    lemma UnknownSequence(id: Word)
      requires forall r | r in network :: r.rid != id
      ensures SequenceOf(id) == 0
    {
    }

    lemma SequenceStored(id: Word, seq_: bv16)
      requires ValidNet() && id in Contents().links && forall r | r in network && r.rid == id :: r.lastSeq == seq_
      ensures SequenceOf(id) == seq_
    {
      RidNodes();
      var r :| r in network && r.rid == id;
      SequenceIs(r);
    }

    // ---- HELLO ----

    /** The sweep over the neighbours of one interface; a neighbour gone silent also loses its link with
        this router once the start-up period is over. */
    method SweepIface(k: nat, now: int)
      requires ValidNet() && thisRouter in network && k < |interfaces|
      modifies `interfaces, Nodes()`adjacencies, Nodes()`adjSize, Nodes()`subnets
      ensures ValidNet() && interfaces == old(interfaces)[k := Swept(old(interfaces)[k], now)]
      ensures Contents() == if initTime < now
              then SweptTopo(old(Contents()), thisRouter.rid, old(interfaces)[k].neighbors, 0, now)
                            else old(Contents())
    {
      hide ValidNet, Contents, Sweep, SweptTopo, WithdrawnAt;
      var i := 0;
      while i < |interfaces[k].neighbors|
        invariant 0 <= i && ValidNet() && |interfaces| == |old(interfaces)|
        invariant interfaces == old(interfaces)[k := old(interfaces)[k].(neighbors := interfaces[k].neighbors)]
        invariant Sweep(interfaces[k].neighbors, i, now) == Sweep(old(interfaces)[k].neighbors, 0, now)
        invariant if initTime < now
                  then SweptTopo(Contents(), thisRouter.rid, interfaces[k].neighbors, i, now)
                       == SweptTopo(old(Contents()), thisRouter.rid, old(interfaces)[k].neighbors, 0, now)
                  else Contents() == old(Contents())
        decreases |interfaces[k].neighbors|, |interfaces[k].neighbors| - i
      {
        var ns := interfaces[k].neighbors;
        SweepAt(ns, i, now);
        SweptTopoAt(Contents(), thisRouter.rid, ns, i, now);
        if ns[i].timeNotValid < now {
          var id := ns[i].id;
          interfaces := interfaces[k := interfaces[k].(neighbors := SwapRemove(ns, i))];
          if now > initTime {
            WithdrawSubnet(thisRouter, id);
          }
          i := i - 1;
        }
        i := i + 1;
      }
      SweepEnd(interfaces[k].neighbors, i, now);
      SweptTopoAt(Contents(), thisRouter.rid, interfaces[k].neighbors, i, now);
    }

    /** Refreshes or adds the sender of a HELLO on the receiving interface. */
    method HearOn(k: nat, h: Hello, now: int, found: bool) returns (known: bool)
      requires k < |interfaces|
      modifies `interfaces
      ensures interfaces == old(interfaces)[k := Heard(old(interfaces)[k], h, now, found)]
      ensures known == (found || HearsFrom(old(interfaces)[k].neighbors, h.src))
    {
      var ns := interfaces[k].neighbors;
      var size := interfaces[k].nbrBufSize;
      if size <= |ns| {
        size := 2 * size;
      }
      known := found;
      for i := 0 to |ns|
        invariant |ns| == |old(interfaces)[k].neighbors|
        invariant forall j | 0 <= j < |ns| ::
                    ns[j] == if j < i then Refresh(old(interfaces)[k].neighbors, h.src, now + OSPF_NEIGHBOR_TIMEOUT)[j]
                             else old(interfaces)[k].neighbors[j]
        invariant known == (found || exists j :: 0 <= j < i && old(interfaces)[k].neighbors[j].ip == h.src)
      {
        if ns[i].ip == h.src {
          ns := ns[i := ns[i].(timeNotValid := now + OSPF_NEIGHBOR_TIMEOUT)];
          known := true;
        }
      }
      assert ns == Refresh(old(interfaces)[k].neighbors, h.src, now + OSPF_NEIGHBOR_TIMEOUT);
      if !known {
        ns := ns + [Neighbor(h.rid, h.src, now + OSPF_NEIGHBOR_TIMEOUT)];
      }
      interfaces := interfaces[k := interfaces[k].(neighbors := ns, nbrBufSize := size)];
    }

    method IdentifySubnet(h: Hello)
      requires ValidNet() && thisRouter in network
      modifies thisRouter`subnets
      ensures ValidNet()
      ensures Contents() == SetSubs(old(Contents()), thisRouter.rid,
                Identified(SubsOf(old(Contents()), thisRouter.rid), h))
    {
      hide ValidNet, Contents;
      ContentsAt(thisRouter);
      SetSame(Contents(), thisRouter.rid);
      var place := thisRouter.FindPrefix(And(h.src, h.mask));
      if place.Some? {
        var s := thisRouter.subnets[place.value];
        if s.rid == 0 && s.mask == h.mask {
          thisRouter.subnets := thisRouter.subnets[place.value := s.(rid := h.rid)];
        }
      }
      OneRouterEdited(thisRouter);
    }

    /** One round of the walk of handle_HELLO over the interfaces. */
    method PassIface(k: nat, h: Hello, now: int, found: bool) returns (dropped: bool, known: bool)
      requires ValidNet() && thisRouter in network && k < |interfaces|
      modifies `interfaces, Nodes()`adjacencies, Nodes()`adjSize, Nodes()`subnets
      ensures ValidNet() && interfaces == old(interfaces)[k := Passed(old(interfaces)[k], h, now, found)]
      ensures dropped == StopsAt(old(interfaces)[k], h)
      ensures var f := Swept(old(interfaces)[k], now);
              !dropped ==> known == (found || (f.name == h.iface && HearsFrom(f.neighbors, h.src)))
      ensures Contents() == PassedTopo(old(Contents()), thisRouter.rid, old(interfaces)[k], h, now, initTime < now)
    {
      hide ValidNet, Contents, Sweep, SweptTopo, Heard, Identified;
      SweepIface(k, now);
      dropped, known := false, found;
      if interfaces[k].name == h.iface {
        if interfaces[k].mask != h.mask || interfaces[k].helloInt != h.helloInt {
          return true, found;
        }
        known := HearOn(k, h, now, found);
        IdentifySubnet(h);
      }
    }

    /** Handles a HELLO of `len` bytes: sweeps the interfaces in turn and brings in the sender on the one
        it came in on; a HELLO that disagrees with that interface ends the walk there. */
    method HandleHello(len: nat, h: Hello, now: int) returns (dropped: bool)
      requires ValidNet() && thisRouter in network
      modifies `interfaces, Nodes()`adjacencies, Nodes()`adjSize, Nodes()`subnets
      ensures ValidNet()
      ensures dropped == (len < 32 || exists k :: 0 <= k < |old(interfaces)| && StopsAt(old(interfaces)[k], h))
      ensures interfaces == if len < 32 then old(interfaces) else AfterHello(old(interfaces), 0, h, now, false)
      ensures Contents() == if len < 32 then old(Contents())
                            else AfterHelloTopo(old(Contents()), thisRouter.rid, old(interfaces), 0, h, now,
                                initTime < now)
    {
      hide ValidNet, Contents, AfterHello, AfterHelloTopo, PassedTopo, Passed, StopsAt;
      dropped := false;
      if len < 32 {
        return true;
      }
      var found := false;
      var k := 0;
      while k < |interfaces|
        invariant 0 <= k <= |interfaces| == |old(interfaces)| && ValidNet()
        invariant AfterHello(interfaces, k, h, now, found) == AfterHello(old(interfaces), 0, h, now, false)
        invariant forall j | k <= j < |interfaces| :: interfaces[j] == old(interfaces)[j]
        invariant forall j | 0 <= j < k :: !StopsAt(old(interfaces)[j], h)
        invariant AfterHelloTopo(Contents(), thisRouter.rid, old(interfaces), k, h, now, initTime < now)
                  == AfterHelloTopo(old(Contents()), thisRouter.rid, old(interfaces), 0, h, now, initTime < now)
      {
        AfterHelloAt(interfaces, k, h, now, found);
        StopsWhenSwept(interfaces[k], h, now);
        AfterHelloTopoAt(Contents(), thisRouter.rid, old(interfaces), k, h, now, initTime < now);
        dropped, found := PassIface(k, h, now, found);
        k := k + 1;
        if dropped {
          return;
        }
      }
      AfterHelloEnd(interfaces, k, h, now, found);
      AfterHelloTopoAt(Contents(), thisRouter.rid, old(interfaces), k, h, now, initTime < now);
    }

    /** Sweeping changes neither name nor parameters of an interface. */
    lemma StopsWhenSwept(f: Iface, h: Hello, now: int)
      ensures StopsAt(f, h) <==> Swept(f, now).name == h.iface && Mismatch(Swept(f, now), h)
      ensures Swept(f, now).name == f.name
    {
    }

    // ---- whole runs ----

    /** No predecessor points outside the network. */
    ghost predicate PrevsInside()
      reads `network, network`prev
    {
      forall r | r in network && r.prev != null :: r.prev in network
    }

    lemma PrevsAfterDijkstra()
      requires ValidNet() && ShortestPaths()
      ensures PrevsInside()
    {
      assert thisRouter.prev != null && thisRouter in network ==> thisRouter in Marks().prev;
      ThisRouterIsNode();
      forall r | r in network && r.prev != null
        ensures r.prev in network
      {
        hide ShortestPaths, ValidNet;
        Predecessor(r);
      }
    }

    /** Runs one locked section. `event` is what it does to the database, if anything; after a failed
        assertion the program stops. */
    method Serve(section: Section) returns (ok: bool, ghost event: seq<Event>)
      requires ValidNet() && PrevsInside()
      modifies `network, `interfaces, `fwrdTable, Nodes()
      ensures ValidNet() && PrevsInside() && forall r | r in network :: r in old(Nodes()) || fresh(r)
      ensures |event| <= 1 && Contents() == AfterAll(old(Contents()), thisRouter.rid, event)
      ensures SparesMe(thisRouter.rid, event) && (AllFit(old(interfaces)) ==> AllFit(interfaces))
    {
      hide ValidNet, Contents, ShortestPaths, Computed, AfterLsu, AfterHelloTopo, DroppedAll, Kept, Expired;
      hide AfterHello, AllFit;
      ghost var t := Contents();
      ghost var e := ExpiryEvent([]);
      event := [];
      ok := true;
      match section {
        case LsuSection(rid, advs, now) =>
          e := LsuEvent(rid, advs, initTime < now);
          var status := AddToTop(rid, advs, now);
          ok := !status.Aborted?;
          event := [e];
          PrevsAfterDijkstra();
        case SequenceSection(rid, seq_) =>
          SetSequence(rid, seq_);
        case HelloSection(len, h, now) =>
          e := HelloEvent(interfaces, h, now, initTime < now);
          ThisRouterIsNode();
          var dropped := HandleHello(len, h, now);
          if AllFit(old(interfaces)) {
            AfterHelloFits(old(interfaces), 0, h, now, false);
          }
          if 32 <= len {
            event := [e];
          }
        case TimerSection(now) =>
          e := ExpiryEvent(Expired(network, now));
          NeverExpires(network, now);
          var changed, status := CheckTopInvalid(now);
          event := [e];
          ok := !changed || !status.Aborted?;
          if changed {
            PrevsAfterDijkstra();
          }
      }
      OneEvent(t, thisRouter.rid, e);
    }

    lemma NeverExpires(s: seq<Router>, now: int)
      requires ValidNet() && forall r | r in s :: r in network
      ensures thisRouter.rid !in Expired(s, now)
    {
      if s != [] {
        NeverExpires(s[..|s| - 1], now);
        ThisRouterIsNode();
        SameRid(s[|s| - 1], thisRouter);
      }
    }

    static lemma OneEvent(t: Topo, me: Word, e: Event)
      ensures AfterAll(t, me, []) == t && AfterAll(t, me, [e]) == After(t, me, e)
    {
      assert [e][..0] == [];
    }

    /** Every run of locked sections, in whatever order threads get the lock, keeps router ids unique,
        adjacencies packed, without duplicates and inside the network, this router in it, and predecessors
        inside it too, keeps the neighbours of every interface distinct and inside their array; and what it
        does to the database is a run of the events its sections stand for. */
    method Run(sections: seq<Section>) returns (ghost events: seq<Event>)
      requires ValidNet() && PrevsInside()
      modifies `network, `interfaces, `fwrdTable, Nodes()
      ensures ValidNet() && PrevsInside()
      ensures Contents() == AfterAll(old(Contents()), thisRouter.rid, events) && SparesMe(thisRouter.rid, events)
      ensures AllFit(old(interfaces)) ==> AllFit(interfaces)
    {
      hide ValidNet, Contents, PrevsInside, After, AllFit;
      events := [];
      var ok := true;
      var i := 0;
      while i < |sections| && ok
        invariant 0 <= i <= |sections| && ValidNet() && PrevsInside()
        invariant forall r | r in network :: r in old(Nodes()) || fresh(r)
        invariant Contents() == AfterAll(old(Contents()), thisRouter.rid, events) && SparesMe(thisRouter.rid, events)
        invariant AllFit(old(interfaces)) ==> AllFit(interfaces)
      {
        ghost var event;
        ok, event := Serve(sections[i]);
        MoreEvents(old(Contents()), thisRouter.rid, events, event);
        events := events + event;
        i := i + 1;
      }
    }

    static lemma MoreEvents(t: Topo, me: Word, es: seq<Event>, more: seq<Event>)
      requires |more| <= 1 && SparesMe(me, es) && SparesMe(me, more)
      ensures AfterAll(t, me, es + more) == AfterAll(AfterAll(t, me, es), me, more) && SparesMe(me, es + more)
    {
      if more == [] {
        assert es + more == es;
      } else {
        assert (es + more)[..|es|] == es;
        OneEvent(AfterAll(t, me, es), me, more[0]);
        assert more == [more[0]];
      }
    }

    /** The advertisements of this router: its subnets, then the static routes with no router. */
    method GenerateAdv(statics: seq<Route>) returns (advs: seq<Route>)
      ensures advs == AdvertList(thisRouter.subnets, statics)
    {
      advs := [];
      for i := 0 to |thisRouter.subnets|
        invariant advs == AdvertList(thisRouter.subnets, statics)[..i]
      {
        var s := thisRouter.subnets[i];
        advs := advs + [Route(s.prefix, s.mask, 0, s.rid)];
      }
      for i := 0 to |statics|
        invariant advs == AdvertList(thisRouter.subnets, statics)[..|thisRouter.subnets| + i]
      {
        advs := advs + [Route(statics[i].prefix, statics[i].mask, 0, 0)];
      }
    }

    /** Sends a new LSU of this router to every neighbour. */
    method SendLsu(statics: seq<Route>) returns (sent: seq<Lsu>)
      modifies `lastSeqSent
      ensures lastSeqSent == old(lastSeqSent) + 1
      ensures sent == Originated(interfaces, thisRouter.rid, lastSeqSent, AdvertList(thisRouter.subnets, statics))
    {
      lastSeqSent := lastSeqSent + 1;
      var list := GenerateAdv(statics);
      sent := SendCopies(Lsu(thisRouter.rid, lastSeqSent, INIT_TTL, INIT_TTL, 0, 0, list));
    }

    /** The loop of send_lsu over interfaces and neighbours. */
    method SendCopies(p: Lsu) returns (sent: seq<Lsu>)
      ensures sent == Copies(interfaces, p, None)
    {
      hide Copies, CopiesOn;
      sent := [];
      var i := 0;
      assert interfaces[0..] == interfaces;
      while i < |interfaces|
        invariant 0 <= i <= |interfaces|
        invariant Copies(interfaces, p, None) == sent + Copies(interfaces[i..], p, None)
      {
        var f := interfaces[i];
        ghost var before := sent;
        var j := 0;
        CopiesFrom(interfaces, p, None, i);
        assert f.neighbors[0..] == f.neighbors;
        while j < |f.neighbors|
          invariant 0 <= j <= |f.neighbors|
          invariant before + CopiesOn(f, f.neighbors, p, None) == sent + CopiesOn(f, f.neighbors[j..], p, None)
        {
          CopiesOnFrom(f, p, None, j);
          sent := sent + [p.(src := f.address, dst := f.neighbors[j].ip)];
          j := j + 1;
        }
        CopiesOnFrom(f, p, None, j);
        assert sent == before + CopiesOn(f, f.neighbors, p, None);
        i := i + 1;
      }
      CopiesFrom(interfaces, p, None, i);
    }
  }
}

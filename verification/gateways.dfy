/** The smallest networks in which packets loop: two routers on one link, each with a default route. And the static
    routes shipped, with which none do. */
module Gateways {
  import opened Forwarding
  import opened Graphs
  import opened Lookup
  import opened Network
  import opened PacketLoops
  import opened Records

  /** A link between routers 1 and 2, and the address each has on it. */
  datatype Link = Link(prefix: Word, mask: Word, address1: Word, address2: Word)

  ghost predicate Sound(l: Link) {
    && 0 < l.mask && l.address1 != l.address2
    && And(l.mask, l.address1) == l.prefix && And(l.mask, l.address2) == l.prefix
  }

  const DEFAULT: Key := Key(0, 0)

  function LinkKey(l: Link): Key {
    Key(l.prefix, l.mask)
  }

  function Other(r: Word): Word {
    if r == 1 then 2 else 1
  }

  function AddressOf(l: Link, r: Word): Word {
    if r == 1 then l.address1 else l.address2
  }

  function OwnOf(l: Link, r: Word): seq<Route> {
    [Route(l.prefix, l.mask, AddressOf(l, Other(r)), Other(r))]
  }

  function IfacesOf(l: Link, r: Word): seq<Iface> {
    [Iface("eth1", AddressOf(l, r), l.mask, 5, [Neighbor(Other(r), AddressOf(l, Other(r)), 0)], 5)]
  }

  function TableOfGateway(l: Link, r: Word): seq<Entry> {
    [Entry(l.prefix, l.mask, AddressOf(l, Other(r)), "eth1", 0), Entry(0, 0, AddressOf(l, Other(r)), "eth1", 1)]
  }

  const STATIC: seq<Route> := [Route(0, 0, 0, 0)]

  ghost function Pair(l: Link): Net {
    Net(map[1 := {2}, 2 := {1}], map[1 := OwnOf(l, 1), 2 := OwnOf(l, 2)], map[1 := STATIC, 2 := STATIC],
        map[1 := IfacesOf(l, 1), 2 := IfacesOf(l, 2)], map[l.address1 := 1, l.address2 := 2])
  }

  ghost function PairTables(l: Link): Tables {
    map[1 := TableOfGateway(l, 1), 2 := TableOfGateway(l, 2)]
  }

  /** What the routers should know. */
  ghost function ViewOf(l: Link, r: Word): map<Word, seq<Route>>
    requires r in {1, 2}
  {
    View(Pair(l).own, Pair(l).statics, r)
  }

  lemma PairDistances(l: Link, r: Word)
    requires r in {1, 2}
    ensures IsDistance(Pair(l).links, r, r, 0) && IsDistance(Pair(l).links, r, Other(r), 1)
  {
    Stay(Pair(l).links, r);
    Neighbour(Pair(l).links, r, Other(r));
  }

  lemma PairSubnet(l: Link, r: Word)
    requires Sound(l) && r in {1, 2}
    ensures SubnetIface(IfacesOf(l, r), l.prefix) == Some("eth1")
            && HopVia(IfacesOf(l, r), Other(r)) == (AddressOf(l, Other(r)), "eth1")
  {
    assert FirstWithId(IfacesOf(l, r)[0].neighbors, Other(r)) == Some(IfacesOf(l, r)[0].neighbors[0]);
  }

  lemma PairView(l: Link, r: Word)
    requires r in {1, 2}
    ensures var v := ViewOf(l, r);
            v.Keys == {r, Other(r)} && v[r] == OwnOf(l, r) && v[Other(r)] == OwnOf(l, Other(r)) + STATIC
  {
  }

  lemma LinkEntryRight(l: Link, r: Word)
    requires Sound(l) && r in {1, 2}
    ensures Genuine<Word>(Pair(l).links, r, ViewOf(l, r), IfacesOf(l, r), Self, TableOfGateway(l, r)[0])
  {
    PairDistances(l, r);
    PairSubnet(l, r);
    PairView(l, r);
    hide IsDistance, SubnetIface, HopVia, ViewOf;
    assert OwnOf(l, r)[0] in OwnOf(l, r);
    assert LeadsTo<Word>(Pair(l).links, r, IfacesOf(l, r), Self, TableOfGateway(l, r)[0], r, OwnOf(l, r)[0]);
  }

  lemma DefaultEntryRight(l: Link, r: Word)
    requires Sound(l) && r in {1, 2}
    ensures Genuine<Word>(Pair(l).links, r, ViewOf(l, r), IfacesOf(l, r), Self, TableOfGateway(l, r)[1])
  {
    PairDistances(l, r);
    PairDistances(l, Other(r));
    PairSubnet(l, r);
    PairView(l, r);
    hide IsDistance, SubnetIface, HopVia, ViewOf;
    var e := TableOfGateway(l, r)[1];
    assert STATIC[0] in OwnOf(l, Other(r)) + STATIC;
    assert FirstHop<Word>(Pair(l).links, r, IfacesOf(l, r), Self, e, Other(r), Other(r));
    assert LeadsTo<Word>(Pair(l).links, r, IfacesOf(l, r), Self, e, Other(r), STATIC[0]);
  }

  /** The table of each router is right: its own link, and the other's default route one hop away. */
  lemma PairTableRight(l: Link, r: Word)
    requires Sound(l) && r in {1, 2}
    ensures TableCorrect(Pair(l).links, r, ViewOf(l, r), IfacesOf(l, r), Self, TableOfGateway(l, r))
  {
    LinkEntryRight(l, r);
    DefaultEntryRight(l, r);
    PairCovered(l, r);
    var t := TableOfGateway(l, r);
    assert DistinctKeys(t) && forall e | e in t :: e == t[0] || e == t[1];
    hide Genuine, Covered, ViewOf, TableOfGateway, IfacesOf;
  }

  lemma PairCovered(l: Link, r: Word)
    requires Sound(l) && r in {1, 2}
    ensures var v := ViewOf(l, r);
            forall q, s | q in v && s in v[q] :: Covered(Pair(l).links, r, TableOfGateway(l, r), q, s)
  {
    PairDistances(l, r);
    hide IsDistance;
    var v := ViewOf(l, r);
    var t := TableOfGateway(l, r);
    forall q, s | q in v && s in v[q]
      ensures Covered(Pair(l).links, r, t, q, s)
    {
      assert NoFarther(Pair(l).links, r, t[0], q) && (q == Other(r) ==> NoFarther(Pair(l).links, r, t[1], q));
      assert HasKey(t[0], s) || (q == Other(r) && HasKey(t[1], s));
    }
  }

  lemma PairHeard(l: Link)
    requires Sound(l)
    ensures SameRouters(Pair(l)) && PairTables(l).Keys == {1, 2} && HeardFrom(Pair(l), 1, 2) && HeardFrom(Pair(l), 2, 1)
    ensures Pair(l).links == map[1 := {2}, 2 := {1}]
    ensures Pair(l).ifaces[1] == IfacesOf(l, 1) && Pair(l).ifaces[2] == IfacesOf(l, 2)
  {
    PairSubnet(l, 1);
    PairSubnet(l, 2);
    hide HopVia;
  }

  lemma ConvergedByRouter(n: Net, t: Tables)
    requires SameRouters(n) && n.links.Keys == t.Keys == {1, 2} && n.links[1] == {2} && n.links[2] == {1}
    requires HeardFrom(n, 1, 2) && HeardFrom(n, 2, 1)
    requires forall r | r in {1, 2} :: TableCorrect(n.links, r, View(n.own, n.statics, r), n.ifaces[r], Self, t[r])
    ensures Converged(n, t)
  {
    hide TableCorrect, HeardFrom, View;
  }

  lemma PairConverged(l: Link)
    requires Sound(l)
    ensures Converged(Pair(l), PairTables(l))
  {
    PairHeard(l);
    hide TableCorrect, HeardFrom, View, IfacesOf, TableOfGateway;
    forall r | r in {1, 2}
      ensures Pair(l).ifaces[r] == IfacesOf(l, r) && PairTables(l)[r] == TableOfGateway(l, r)
      ensures TableCorrect(Pair(l).links, r, ViewOf(l, r), IfacesOf(l, r), Self, TableOfGateway(l, r))
    {
      PairTableRight(l, r);
    }
    ConvergedByRouter(Pair(l), PairTables(l));
  }

  lemma PairOriginates(l: Link, r: Word, k: Key)
    requires Sound(l)
    ensures Originates(Pair(l), r, k) <==> r in {1, 2} && k in {LinkKey(l), DEFAULT}
    ensures StaticOnly(Pair(l), r, k) <==> r in {1, 2} && k == DEFAULT
  {
    assert KeysOf(STATIC) == {DEFAULT};
    assert KeysOf(OwnOf(l, r)) == {LinkKey(l)};
  }

  /** The destination is not on the link. */
  ghost predicate OffLink(l: Link, dst: Word) {
    And(l.mask, dst) != l.prefix
  }

  lemma PairTop(l: Link, dst: Word)
    requires Sound(l) && OffLink(l, dst)
    ensures Top(Pair(l), dst, DEFAULT) && StaticOnly(Pair(l), 1, DEFAULT) && StaticOnly(Pair(l), 2, DEFAULT)
    ensures forall r | Originates(Pair(l), r, DEFAULT) :: r == 1 || r == 2
  {
    assert !MatchesKey(LinkKey(l), dst) && MatchesKey(DEFAULT, dst);
    hide StaticOnly, Originates, MatchesKey;
    forall r, k
      ensures Originates(Pair(l), r, k) <==> r in {1, 2} && k in {LinkKey(l), DEFAULT}
    {
      PairOriginates(l, r, k);
    }
    PairOriginates(l, 1, DEFAULT);
    PairOriginates(l, 2, DEFAULT);
    assert Originates(Pair(l), 1, DEFAULT);
  }

  lemma PairStrangers(l: Link, dst: Word)
    requires Sound(l) && OffLink(l, dst)
    ensures !Mine(Pair(l), 1, dst) && !Mine(Pair(l), 2, dst)
    ensures 1 in Pair(l).links && 2 in Pair(l).links && 2 in Pair(l).links[1] && 1 in Pair(l).links[2]
  {
  }

  /** On whatever link, a packet for any address off it goes to and fro for as long as it lives. */
  lemma TwoDefaultRoutesLoop(l: Link, dst: Word, fuel: nat)
    requires Sound(l) && OffLink(l, dst)
    ensures Converged(Pair(l), PairTables(l)) && |Trace(Pair(l), PairTables(l), 1, dst, fuel)| == fuel + 1
    ensures !NoBounce(Pair(l), dst)
  {
    PairConverged(l);
    PairTop(l, dst);
    PairStrangers(l, dst);
    hide Converged, Top, Originates, StaticOnly, NoBounce, Mine, Next, Trace, Pair, PairTables, Sound, OffLink;
    TwoGatewaysLoop(Pair(l), PairTables(l), 1, 2, dst, DEFAULT, fuel);
    GoesOn(Pair(l), PairTables(l), dst, 1, 2);
    Repeats(Pair(l), PairTables(l), dst, 1, 2);
    hide NeverLoops;
    LoopNeedsBounce(Pair(l), PairTables(l), dst);
  }

  /** The mask of every interface, as a host in network order stores it: all bits but the last. */
  const IF_MASK: Word := 0xFFFF_FFFE

  /** With that mask the two addresses of any pair that differ in the last bit make such a link, and all other
      addresses are off it. */
  lemma InterfaceMaskLink(half: nat, dst: Word) returns (l: Link)
    requires half < 0x8000_0000 && dst / 2 != half
    ensures l == Link(2 * half, IF_MASK, 2 * half, 2 * half + 1) && Sound(l) && OffLink(l, dst)
  {
    l := Link(2 * half, IF_MASK, 2 * half, 2 * half + 1);
    hide And;
    AllButLast(half, 0);
    AllButLast(half, 1);
    OutsideLink(half, dst);
  }

  lemma OutsideLink(half: nat, dst: Word)
    requires half < 0x8000_0000 && dst / 2 != half
    ensures And(IF_MASK, dst) != 2 * half
  {
    hide And;
    var h, bit := dst / 2, dst % 2;
    assert dst == 2 * h + bit;
    AllButLast(h, bit);
  }

  lemma AllButLast(half: nat, bit: nat)
    requires half < 0x8000_0000 && bit < 2
    ensures And(IF_MASK, 2 * half + bit) == 2 * half
  {
    AllOnesBut(half);
    AndStep(IF_MASK, 2 * half + bit);
    hide And;
  }

  lemma AllOnesBut(half: nat)
    requires half < 0x8000_0000
    ensures And(0x7FFF_FFFF, half) == half
  {
    Pow2Values();
    assert Pow2(32) == 2 * Pow2(31);
    AndOnes(31, half);
  }

  // ---- the static routes shipped ----

  /** Router `a` has a default route and no other; `b` and `c` have a host route each, and hold the subnet the host is
      on; other routers have none. All interfaces have the same mask. */
  ghost predicate Shipped(n: Net, a: Word, b: Word, c: Word, mask: Word, hostB: Word, hostC: Word) {
    && SameRouters(n) && a != b && a != c && b != c && {a, b, c} <= n.statics.Keys
    && 0 < mask < 0xFFFF_FFFF && hostB != hostC
    && (forall r, k | Holds(n, r, k) :: k.mask == mask)
    && KeysOf(n.statics[a]) == {DEFAULT}
    && KeysOf(n.statics[b]) == {Key(hostB, 0xFFFF_FFFF)} && KeysOf(n.statics[c]) == {Key(hostC, 0xFFFF_FFFF)}
    && (forall r | r in n.statics && r !in {a, b, c} :: n.statics[r] == [])
    && Holds(n, b, Key(And(mask, hostB), mask)) && Holds(n, c, Key(And(mask, hostC), mask))
  }

  lemma AllOnes(x: Word)
    ensures And(0xFFFF_FFFF, x) == x
  {
    Pow2Values();
    AndOnes(32, x);
  }

  /** Who originates what there. */
  lemma ShippedKeys(n: Net, a: Word, b: Word, c: Word, mask: Word, hostB: Word, hostC: Word, r: Word, k: Key)
    requires Shipped(n, a, b, c, mask, hostB, hostC) && Originates(n, r, k)
    ensures Holds(n, r, k) <==> k.mask == mask
    ensures k.mask != mask ==>
              || (r == a && k == DEFAULT)
              || (r == b && k == Key(hostB, 0xFFFF_FFFF)) || (r == c && k == Key(hostC, 0xFFFF_FFFF))
  {
    assert k.mask == mask && !Holds(n, r, k) ==> r in n.statics && k in KeysOf(n.statics[r]);
  }

  /** A router with one of these static routes follows none but its own subnets instead. */
  lemma ShippedStaysHome(n: Net, a: Word, b: Word, c: Word, mask: Word, hostB: Word, hostC: Word, dst: Word,
                         x: Word, k: Key, j: Key)
    requires Shipped(n, a, b, c, mask, hostB, hostC) && Top(n, dst, k) && StaticOnly(n, x, k)
    requires LongestKnown(n, x, dst, j)
    ensures Holds(n, x, j)
  {
    ShippedKeys(n, a, b, c, mask, hostB, hostC, x, k);
    var r :| Visible(n, x, r, j);
    ShippedKeys(n, a, b, c, mask, hostB, hostC, r, j);
    assert Originates(n, r, j) && j.mask <= k.mask;
    if x != a {
      var host := if x == b then hostB else hostC;
      var home := Key(And(mask, host), mask);
      AllOnes(dst);
      assert MatchesKey(home, dst) && Visible(n, x, x, home);
      hide And;
      if j.mask == mask {
        SameMask(j, home, dst);
      }
    }
  }

  /** With the static routes shipped no packet loops, in whatever network. */
  lemma ShippedNeverLoops(n: Net, t: Tables, a: Word, b: Word, c: Word, mask: Word, hostB: Word, hostC: Word, dst: Word)
    requires Shipped(n, a, b, c, mask, hostB, hostC)
    ensures NoBounce(n, dst) && (Converged(n, t) ==> NeverLoops(n, t, dst))
  {
    hide Shipped, Converged, NeverLoops, NoBounce;
    forall x, k, j | Top(n, dst, k) && StaticOnly(n, x, k) && LongestKnown(n, x, dst, j)
      ensures Holds(n, x, j)
    {
      ShippedStaysHome(n, a, b, c, mask, hostB, hostC, dst, x, k, j);
    }
    HomeIsFine(n, dst);
    if Converged(n, t) {
      NoBounceNoLoop(n, t, dst);
    }
  }
}

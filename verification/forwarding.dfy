/** The forwarding table as a value: what merging one subnet does to it, and the simple definition
    that a computed table is measured against. */
module Forwarding {
  import opened Graphs
  import opened Records

  /** Takes over an offered entry when its key is new, when it is local, or when it is closer. */
  function Merge(t: seq<Entry>, o: Entry): (r: seq<Entry>)
  {
    match Position(t, o.prefix, o.mask)
    case None => t + [o]
    case Some(i) => if o.numHops == 0 || t[i].numHops > o.numHops then t[i := o] else t
  }

  /** The first entry with the given key. */
  function Position(t: seq<Entry>, prefix: Word, mask: Word): (r: Option<nat>)
    ensures r.Some? ==> r.value < |t| && t[r.value].prefix == prefix && t[r.value].mask == mask
    ensures r.Some? ==> forall k | 0 <= k < r.value :: !(t[k].prefix == prefix && t[k].mask == mask)
    ensures r.None? ==> forall k | 0 <= k < |t| :: !(t[k].prefix == prefix && t[k].mask == mask)
  {
    if t == [] then None
    else if t[0].prefix == prefix && t[0].mask == mask then Some(0)
    else match Position(t[1..], prefix, mask)
      case None => None
      case Some(i) => Some(i + 1)
  }

  function MergeAll(offers: seq<Entry>): (t: seq<Entry>)
  {
    if offers == [] then []
    else Merge(MergeAll(offers[..|offers| - 1]), offers[|offers| - 1])
  }

  ghost predicate DistinctKeys(t: seq<Entry>) {
    forall i, j | 0 <= i < j < |t| :: !SameKey(t[i], t[j])
  }

  /** `e` is the offer at `j`: the earliest of the closest ones, or, among local ones, the last. */
  ghost predicate ChosenAt(offers: seq<Entry>, e: Entry, j: nat) {
    && j < |offers| && offers[j] == e
    && (forall i | 0 <= i < |offers| && SameKey(offers[i], e) :: e.numHops <= offers[i].numHops)
    && (forall i | 0 <= i < j && SameKey(offers[i], e) && 0 < e.numHops :: e.numHops < offers[i].numHops)
    && (forall i | j < i < |offers| && SameKey(offers[i], e) && e.numHops == 0 :: 0 < offers[i].numHops)
  }

  ghost predicate Chosen(offers: seq<Entry>, e: Entry) {
    exists j: nat :: ChosenAt(offers, e, j)
  }

  ghost predicate Offered(t: seq<Entry>, o: Entry) {
    exists e :: e in t && SameKey(e, o)
  }

  /** One entry per offered key, holding the best offer for it. */
  ghost predicate BestOffers(t: seq<Entry>, offers: seq<Entry>) {
    && DistinctKeys(t)
    && (forall e | e in t :: Chosen(offers, e))
    && (forall o | o in offers :: Offered(t, o))
  }

  /** Merging keeps exactly the best offer of every key. */
  lemma {:induction false} MergeAllIsBest(offers: seq<Entry>)
    requires forall o | o in offers :: 0 <= o.numHops
    ensures BestOffers(MergeAll(offers), offers)
  {
    if offers != [] {
      var n := |offers| - 1;
      MergeAllIsBest(offers[..n]);
      MergeIsBest(MergeAll(offers[..n]), offers[..n], offers[n]);
      assert offers == offers[..n] + [offers[n]];
    }
  }

  lemma MergeIsBest(t: seq<Entry>, offers: seq<Entry>, o: Entry)
    requires BestOffers(t, offers) && 0 <= o.numHops && forall x | x in offers :: 0 <= x.numHops
    ensures BestOffers(Merge(t, o), offers + [o])
  {
    hide ChosenAt;
    var r := Merge(t, o);
    var p := Position(t, o.prefix, o.mask);
    assert forall k | 0 <= k < |t| :: t[k] in t;
    forall e | e in r
      ensures Chosen(offers + [o], e)
    {
      if e in t && !SameKey(e, o) {
        var j: nat :| ChosenAt(offers, e, j);
        LaterOfferIgnored(offers, e, j, o);
      } else {
        MergedEntryIsChosen(t, offers, o, e);
      }
    }
    forall x | x in offers + [o]
      ensures Offered(r, x)
    {
      if x in offers {
        assert Offered(t, x);
        var k :| 0 <= k < |t| && SameKey(t[k], x);
        assert r[k] in r && SameKey(r[k], x);
      } else {
        var k := if p.Some? then p.value else |t|;
        assert r[k] in r;
      }
    }
  }

  lemma LaterOfferIgnored(offers: seq<Entry>, e: Entry, j: nat, o: Entry)
    requires ChosenAt(offers, e, j) && (SameKey(o, e) ==> e.numHops <= o.numHops && o.numHops != 0)
    ensures Chosen(offers + [o], e)
  {
    assert ChosenAt(offers + [o], e, j);
  }

  lemma LaterOfferWins(offers: seq<Entry>, e: Entry, j: nat, o: Entry)
    requires ChosenAt(offers, e, j) && SameKey(o, e) && (o.numHops == 0 || o.numHops < e.numHops)
    requires forall x | x in offers :: 0 <= x.numHops
    ensures Chosen(offers + [o], o)
  {
    assert ChosenAt(offers + [o], o, |offers|);
  }

  lemma MergedEntryIsChosen(t: seq<Entry>, offers: seq<Entry>, o: Entry, e: Entry)
    requires BestOffers(t, offers) && 0 <= o.numHops && forall x | x in offers :: 0 <= x.numHops
    requires e in Merge(t, o) && SameKey(e, o)
    ensures Chosen(offers + [o], e)
  {
    hide ChosenAt;
    var p := Position(t, o.prefix, o.mask);
    if p.None? {
      assert e == o;
      forall i | 0 <= i < |offers|
        ensures !SameKey(offers[i], o)
      {
        assert Offered(t, offers[i]);
      }
      FirstOfferWins(offers, o);
    } else {
      var held := t[p.value];
      assert Chosen(offers, held);
      var j: nat :| ChosenAt(offers, held, j);
      if o.numHops == 0 || held.numHops > o.numHops {
        LaterOfferWins(offers, held, j, o);
      } else {
        LaterOfferIgnored(offers, held, j, o);
      }
    }
  }

  lemma FirstOfferWins(offers: seq<Entry>, o: Entry)
    requires forall i | 0 <= i < |offers| :: !SameKey(offers[i], o)
    ensures Chosen(offers + [o], o)
  {
    assert ChosenAt(offers + [o], o, |offers|);
  }

  /** Router ids name themselves. */
  function Self(id: Word): Word {
    id
  }

  /** The neighbour heard with the given id, as its address and interface name; the zeroed records
      when there is none. */
  function HopVia(ifaces: seq<Iface>, id: Word): (Word, string)
  {
    if ifaces == [] then (0, "")
    else match FirstWithId(ifaces[0].neighbors, id)
      case Some(n) => (n.ip, ifaces[0].name)
      case None => HopVia(ifaces[1..], id)
  }

  function FirstWithId(ns: seq<Neighbor>, id: Word): (r: Option<Neighbor>)
    ensures r.Some? ==> r.value in ns && r.value.id == id
    ensures r.None? ==> forall n | n in ns :: n.id != id
  {
    if ns == [] then None
    else if ns[0].id == id then Some(ns[0])
    else FirstWithId(ns[1..], id)
  }

  /** The interface on a subnet with the given prefix. */
  function SubnetIface(ifaces: seq<Iface>, prefix: Word): (r: Option<string>)
  {
    if ifaces == [] then None
    else if And(ifaces[0].mask, ifaces[0].address) == prefix then Some(ifaces[0].name)
    else SubnetIface(ifaces[1..], prefix)
  }

  /** The first neighbour with the given id, interface by interface: the one at place `j` of interface `i`. */
  ghost predicate FirstHeard(ifaces: seq<Iface>, id: Word, i: nat, j: nat) {
    && i < |ifaces| && j < |ifaces[i].neighbors| && ifaces[i].neighbors[j].id == id
    && (forall b | 0 <= b < j :: ifaces[i].neighbors[b].id != id)
    && (forall a, n | 0 <= a < i && n in ifaces[a].neighbors :: n.id != id)
  }

  ghost predicate Unheard(ifaces: seq<Iface>, id: Word) {
    forall a, n | 0 <= a < |ifaces| && n in ifaces[a].neighbors :: n.id != id
  }

  lemma {:induction false} FirstWithIdAt(ns: seq<Neighbor>, id: Word) returns (j: nat)
    requires FirstWithId(ns, id).Some?
    ensures j < |ns| && FirstWithId(ns, id).value == ns[j] && ns[j].id == id && forall b | 0 <= b < j :: ns[b].id != id
  {
    if ns[0].id == id {
      j := 0;
    } else {
      var k := FirstWithIdAt(ns[1..], id);
      j := k + 1;
    }
  }

  /** The hop by way of a neighbour is its address and the interface it was heard on; the first neighbour with the id
      counts, and the zeroed records are what is left when there is none. */
  lemma {:induction false} HopViaFirst(ifaces: seq<Iface>, id: Word) returns (i: nat, j: nat)
    ensures !Unheard(ifaces, id) ==> FirstHeard(ifaces, id, i, j)
    ensures HopVia(ifaces, id) ==
            if Unheard(ifaces, id) then (0, "") else (ifaces[i].neighbors[j].ip, ifaces[i].name)
  {
    i, j := 0, 0;
    if ifaces != [] {
      if FirstWithId(ifaces[0].neighbors, id).Some? {
        j := FirstWithIdAt(ifaces[0].neighbors, id);
        assert ifaces[0].neighbors[j] in ifaces[0].neighbors;
      } else {
        var k, m := HopViaFirst(ifaces[1..], id);
        i, j := k + 1, m;
        assert forall a | 0 < a < |ifaces| :: ifaces[a] == ifaces[1..][a - 1];
      }
    }
  }

  /** Interface `i` is the first whose masked address is the prefix. */
  ghost predicate FirstOn(ifaces: seq<Iface>, prefix: Word, i: nat) {
    && i < |ifaces| && And(ifaces[i].mask, ifaces[i].address) == prefix
    && forall a | 0 <= a < i :: And(ifaces[a].mask, ifaces[a].address) != prefix
  }

  /** The interface of a subnet is that one; there is none exactly when no masked address is the prefix. */
  lemma {:induction false} SubnetIfaceFirst(ifaces: seq<Iface>, prefix: Word) returns (i: nat)
    ensures SubnetIface(ifaces, prefix).None? <==>
            forall a | 0 <= a < |ifaces| :: And(ifaces[a].mask, ifaces[a].address) != prefix
    ensures SubnetIface(ifaces, prefix).Some? ==>
              FirstOn(ifaces, prefix, i) && SubnetIface(ifaces, prefix) == Some(ifaces[i].name)
  {
    hide And;
    i := 0;
    if ifaces != [] && And(ifaces[0].mask, ifaces[0].address) != prefix {
      var k := SubnetIfaceFirst(ifaces[1..], prefix);
      i := k + 1;
      assert forall a | 0 < a < |ifaces| :: ifaces[a] == ifaces[1..][a - 1];
    }
  }

  /** Entry `e` leads to router `r`, which holds subnet `s` at distance `e.numHops` from `me`: over the
      local interface when `r` is `me`, else through a neighbour on a shortest path. */
  ghost predicate LeadsTo<V>(g: Graph<V>, me: V, ifaces: seq<Iface>, idOf: V -> Word, e: Entry, r: V, s: Route) {
    && HasKey(e, s) && 0 <= e.numHops && IsDistance(g, me, r, e.numHops)
    && (r == me ==> e.nextHop == s.nextHop && SubnetIface(ifaces, s.prefix) == Some(e.iface))
    && (r != me ==> 0 < e.numHops && me in g && exists y :: y in g[me] && FirstHop(g, me, ifaces, idOf, e, r, y))
  }

  /** Entry `e` names the neighbour `y` of `me`, which is one hop closer to `r`. */
  ghost predicate FirstHop<V>(g: Graph<V>, me: V, ifaces: seq<Iface>, idOf: V -> Word, e: Entry, r: V, y: V)
    requires me in g && 0 < e.numHops
  {
    && y in g[me] && IsDistance(g, y, r, e.numHops - 1)
    && (e.nextHop, e.iface) == HopVia(ifaces, idOf(y))
  }

  /** Entry `e` is at most as far as router `r`. */
  ghost predicate NoFarther<V>(g: Graph<V>, me: V, e: Entry, r: V) {
    exists d: nat :: IsDistance(g, me, r, d) && e.numHops <= d
  }

  ghost predicate Genuine<V>(g: Graph<V>, me: V, subnets: map<V, seq<Route>>, ifaces: seq<Iface>,
                             idOf: V -> Word, e: Entry) {
    exists r, s :: r in subnets && s in subnets[r] && LeadsTo(g, me, ifaces, idOf, e, r, s)
  }

  ghost predicate Covered<V>(g: Graph<V>, me: V, t: seq<Entry>, r: V, s: Route) {
    exists e :: e in t && HasKey(e, s) && NoFarther(g, me, e, r)
  }

  /** The definition of a right table: one entry per distinct (prefix, mask), each at the least
      distance over all routers holding that subnet and leading to one of them. */
  ghost predicate TableCorrect<V>(g: Graph<V>, me: V, subnets: map<V, seq<Route>>, ifaces: seq<Iface>,
                                  idOf: V -> Word, t: seq<Entry>) {
    && DistinctKeys(t)
    && (forall e | e in t :: Genuine(g, me, subnets, ifaces, idOf, e))
    && (forall r, s | r in subnets && s in subnets[r] :: Covered(g, me, t, r, s))
  }

  /** What a subnet is known by in a table. */
  datatype Key = Key(prefix: Word, mask: Word)

  function KeyOf(e: Entry): Key {
    Key(e.prefix, e.mask)
  }

  function KeysOf(s: seq<Route>): set<Key> {
    set r | r in s :: Key(r.prefix, r.mask)
  }

  /** Two accounts of who holds what that agree on the subnets of `me`, and on the keys of all others. */
  ghost predicate SameHoldings<V>(a: map<V, seq<Route>>, b: map<V, seq<Route>>, me: V) {
    && a.Keys == b.Keys && (me in a ==> a[me] == b[me])
    && forall r | r in a && r != me :: KeysOf(a[r]) == KeysOf(b[r])
  }

  lemma KeysOfBoth(a: seq<Route>, b: seq<Route>)
    ensures KeysOf(a + b) == KeysOf(a) + KeysOf(b)
  {
    forall r | r in a + b
      ensures Key(r.prefix, r.mask) in KeysOf(a) + KeysOf(b)
    {
    }
    forall r | r in a || r in b
      ensures Key(r.prefix, r.mask) in KeysOf(a + b)
    {
      assert r in a + b;
    }
  }

  /** What router `x` should know: its own subnets, and of every other router what that one advertises,
      its own subnets and its static routes. */
  ghost function View(own: map<Word, seq<Route>>, statics: map<Word, seq<Route>>, x: Word): map<Word, seq<Route>>
    requires own.Keys == statics.Keys
  {
    map r | r in own :: if r == x then own[r] else own[r] + statics[r]
  }

  lemma KeyedRoute(s: seq<Route>, t: seq<Route>, r: Route) returns (q: Route)
    requires r in s && KeysOf(s) == KeysOf(t)
    ensures q in t && q.prefix == r.prefix && q.mask == r.mask
  {
    assert Key(r.prefix, r.mask) in KeysOf(t);
    q :| q in t && Key(q.prefix, q.mask) == Key(r.prefix, r.mask);
  }

  lemma SameGenuine<V>(g: Graph<V>, me: V, a: map<V, seq<Route>>, b: map<V, seq<Route>>, ifaces: seq<Iface>,
                       idOf: V -> Word, e: Entry)
    requires SameHoldings(a, b, me) && Genuine(g, me, a, ifaces, idOf, e)
    ensures Genuine(g, me, b, ifaces, idOf, e)
  {
    hide IsDistance, KeysOf;
    var r, s :| r in a && s in a[r] && LeadsTo(g, me, ifaces, idOf, e, r, s);
    if r != me {
      var q := KeyedRoute(a[r], b[r], s);
      assert LeadsTo(g, me, ifaces, idOf, e, r, q);
    }
  }

  lemma SameCovered<V>(g: Graph<V>, me: V, a: map<V, seq<Route>>, b: map<V, seq<Route>>, t: seq<Entry>, r: V, s: Route)
    requires SameHoldings(a, b, me) && r in b && s in b[r]
    requires forall q, x | q in a && x in a[q] :: Covered(g, me, t, q, x)
    ensures Covered(g, me, t, r, s)
  {
    hide NoFarther, KeysOf;
    var q := s;
    if r != me {
      q := KeyedRoute(b[r], a[r], s);
    }
    assert Covered(g, me, t, r, q);
  }

  /** Rightness of a table depends on no more than that: not on the next hops, the attached routers or the
      order in which other routers' subnets are kept. */
  lemma HoldingsDecideTable<V>(g: Graph<V>, me: V, a: map<V, seq<Route>>, b: map<V, seq<Route>>, ifaces: seq<Iface>,
                               idOf: V -> Word, t: seq<Entry>)
    requires SameHoldings(a, b, me) && TableCorrect(g, me, a, ifaces, idOf, t)
    ensures TableCorrect(g, me, b, ifaces, idOf, t)
  {
    hide Genuine, Covered, SameHoldings;
    forall e | e in t
      ensures Genuine(g, me, b, ifaces, idOf, e)
    {
      SameGenuine(g, me, a, b, ifaces, idOf, e);
    }
    forall r, s | r in b && s in b[r]
      ensures Covered(g, me, t, r, s)
    {
      SameCovered(g, me, a, b, t, r, s);
    }
  }

  /** Some router at this distance holds the subnet of `e`. */
  ghost predicate HeldAt<V>(g: Graph<V>, me: V, subnets: map<V, seq<Route>>, e: Entry, d: nat) {
    exists r, s :: r in subnets && s in subnets[r] && HasKey(e, s) && IsDistance(g, me, r, d)
  }

  /** Read the other way: every entry's hop count is the least distance over all routers that hold its
      subnet, and a prefix and mask have at most one entry. */
  lemma TableIsMinimum<V>(g: Graph<V>, me: V, subnets: map<V, seq<Route>>, ifaces: seq<Iface>,
                          idOf: V -> Word, t: seq<Entry>)
    requires TableCorrect(g, me, subnets, ifaces, idOf, t)
    ensures forall e | e in t :: 0 <= e.numHops && HeldAt(g, me, subnets, e, e.numHops)
    ensures forall e, d: nat | e in t && HeldAt(g, me, subnets, e, d) :: e.numHops <= d
    ensures forall i, j | 0 <= i < |t| && 0 <= j < |t| && SameKey(t[i], t[j]) :: i == j
  {
    hide Covered, Genuine;
    forall e | e in t
      ensures 0 <= e.numHops && HeldAt(g, me, subnets, e, e.numHops)
    {
      EntryIsHeld(g, me, subnets, ifaces, idOf, e);
    }
    hide IsDistance;
    forall e, d: nat | e in t && HeldAt(g, me, subnets, e, d)
      ensures e.numHops <= d
    {
      var r, s :| r in subnets && s in subnets[r] && HasKey(e, s) && IsDistance(g, me, r, d);
      assert Covered(g, me, t, r, s);
      CoverIsNoFarther(g, me, t, e, r, s, d);
    }
  }

  lemma EntryIsHeld<V>(g: Graph<V>, me: V, subnets: map<V, seq<Route>>, ifaces: seq<Iface>, idOf: V -> Word, e: Entry)
    requires Genuine(g, me, subnets, ifaces, idOf, e)
    ensures 0 <= e.numHops && HeldAt(g, me, subnets, e, e.numHops)
  {
    var r, s :| r in subnets && s in subnets[r] && LeadsTo(g, me, ifaces, idOf, e, r, s);
    assert HasKey(e, s) && IsDistance(g, me, r, e.numHops);
  }

  lemma CoverIsNoFarther<V>(g: Graph<V>, me: V, t: seq<Entry>, e: Entry, r: V, s: Route, d: nat)
    requires DistinctKeys(t) && e in t && HasKey(e, s) && Covered(g, me, t, r, s) && IsDistance(g, me, r, d)
    ensures e.numHops <= d
  {
    var c :| c in t && HasKey(c, s) && NoFarther(g, me, c, r);
    assert SameKey(c, e);
  }

  /** Entry `e` leaves towards `y`, by the interface on which `y` was heard first; with zeroed records when it was
      not. */
  ghost predicate LeavesTowards(ifaces: seq<Iface>, e: Entry, y: Word) {
    if Unheard(ifaces, y) then e.nextHop == 0 && e.iface == ""
    else exists i: nat, j: nat :: FirstHeard(ifaces, y, i, j) && e.nextHop == ifaces[i].neighbors[j].ip
                                  && e.iface == ifaces[i].name
  }

  /** Entry `e` is for a subnet of `me` and names the first interface on its prefix. */
  ghost predicate StaysOn(ifaces: seq<Iface>, e: Entry, s: Route) {
    && HasKey(e, s) && e.nextHop == s.nextHop
    && exists i: nat :: FirstOn(ifaces, s.prefix, i) && e.iface == ifaces[i].name
  }

  /** What the entries of a right table name: for one of its own subnets the interface on it; else the address and the
      interface of a neighbour one hop closer to a router that holds the subnet. */
  lemma EntriesLeave<V>(g: Graph<V>, me: V, subnets: map<V, seq<Route>>, ifaces: seq<Iface>, idOf: V -> Word,
                        t: seq<Entry>, e: Entry)
    requires TableCorrect(g, me, subnets, ifaces, idOf, t) && e in t
    ensures e.numHops == 0 ==> me in subnets && exists s :: s in subnets[me] && StaysOn(ifaces, e, s)
    ensures e.numHops != 0 ==>
              && 0 < e.numHops && me in g
              && exists y, r :: y in g[me] && LeavesTowards(ifaces, e, idOf(y))
                                && r in subnets && KeyOf(e) in KeysOf(subnets[r])
                                && IsDistance(g, me, r, e.numHops) && IsDistance(g, y, r, e.numHops - 1)
  {
    hide IsDistance, Covered, And;
    assert Genuine(g, me, subnets, ifaces, idOf, e);
    var r, s :| r in subnets && s in subnets[r] && LeadsTo(g, me, ifaces, idOf, e, r, s);
    if r == me {
      OwnDistance(g, me, e.numHops);
      var i := SubnetIfaceFirst(ifaces, s.prefix);
      assert StaysOn(ifaces, e, s);
    } else {
      var y :| y in g[me] && FirstHop(g, me, ifaces, idOf, e, r, y);
      var i, j := HopViaFirst(ifaces, idOf(y));
      assert LeavesTowards(ifaces, e, idOf(y));
    }
  }

  lemma OwnDistance<V>(g: Graph<V>, me: V, d: nat)
    requires IsDistance(g, me, me, d)
    ensures d == 0
  {
    Stay(g, me);
  }

  /** Merging genuine offers that reach every holder gives a right table. */
  lemma MergedTableCorrect<V>(g: Graph<V>, me: V, subnets: map<V, seq<Route>>, ifaces: seq<Iface>,
                              idOf: V -> Word, offers: seq<Entry>)
    requires forall o | o in offers :: 0 <= o.numHops && Genuine(g, me, subnets, ifaces, idOf, o)
    requires forall r, s | r in subnets && s in subnets[r] :: Covered(g, me, offers, r, s)
    ensures TableCorrect(g, me, subnets, ifaces, idOf, MergeAll(offers))
  {
    hide Genuine, MergeAll, IsDistance;
    var t := MergeAll(offers);
    MergeAllIsBest(offers);
    forall e | e in t
      ensures Genuine(g, me, subnets, ifaces, idOf, e)
    {
      assert Chosen(offers, e);
    }
    forall r, s | r in subnets && s in subnets[r]
      ensures Covered(g, me, t, r, s)
    {
      assert Covered(g, me, offers, r, s);
      var o :| o in offers && HasKey(o, s) && NoFarther(g, me, o, r);
      assert Offered(t, o);
      var e :| e in t && SameKey(e, o);
      assert Chosen(offers, e);
      var d: nat :| IsDistance(g, me, r, d) && o.numHops <= d;
      assert e.numHops <= d;
      assert NoFarther(g, me, e, r);
    }
  }

  /** A subnet of `r`, offered by way of the first hop `y` of a shortest path to `r`. */
  lemma RemoteOffer<V>(g: Graph<V>, me: V, subnets: map<V, seq<Route>>, ifaces: seq<Iface>, idOf: V -> Word,
                       r: V, s: Route, y: V, hops: nat)
    requires r in subnets && s in subnets[r] && r != me && me in g && 0 < hops
    requires IsDistance(g, me, r, hops) && y in g[me] && IsDistance(g, y, r, hops - 1)
    ensures var (ip, iface) := HopVia(ifaces, idOf(y)); var o := Entry(s.prefix, s.mask, ip, iface, hops);
            Genuine(g, me, subnets, ifaces, idOf, o) && NoFarther(g, me, o, r)
  {
    hide IsDistance;
    var (ip, iface) := HopVia(ifaces, idOf(y));
    var o := Entry(s.prefix, s.mask, ip, iface, hops);
    assert FirstHop(g, me, ifaces, idOf, o, r, y);
    assert LeadsTo(g, me, ifaces, idOf, o, r, s);
  }

  /** A subnet of this router itself. */
  lemma LocalOffer<V>(g: Graph<V>, me: V, subnets: map<V, seq<Route>>, ifaces: seq<Iface>, idOf: V -> Word, s: Route)
    requires me in subnets && s in subnets[me] && SubnetIface(ifaces, s.prefix).Some?
    ensures var o := Entry(s.prefix, s.mask, s.nextHop, SubnetIface(ifaces, s.prefix).value, 0);
            Genuine(g, me, subnets, ifaces, idOf, o) && NoFarther(g, me, o, me)
  {
    var o := Entry(s.prefix, s.mask, s.nextHop, SubnetIface(ifaces, s.prefix).value, 0);
    Stay(g, me);
    assert IsDistance(g, me, me, 0);
    assert LeadsTo(g, me, ifaces, idOf, o, me, s);
  }

  lemma CoveredByMore<V>(g: Graph<V>, me: V, a: seq<Entry>, b: seq<Entry>)
    requires forall e | e in a :: e in b
    ensures forall r, s :: Covered(g, me, a, r, s) ==> Covered(g, me, b, r, s)
  {
  }

  /** The subnets of a renamed topology. */
  ghost predicate RenamesSubnets<U, V>(a: map<U, seq<Route>>, b: map<V, seq<Route>>, f: U -> V) {
    && (forall u | u in a :: f(u) in b && b[f(u)] == a[u])
    && (forall x | x in b :: exists u | u in a :: f(u) == x)
  }

  lemma RenamedLeadsTo<U, V>(g: Graph<U>, h: Graph<V>, f: U -> V, me: U, ifaces: seq<Iface>,
                             idU: U -> Word, idV: V -> Word, e: Entry, r: U, s: Route)
    requires Renames(g, h, f) && me in g && r in g && (forall u | u in g :: idU(u) == idV(f(u)))
    requires LeadsTo(g, me, ifaces, idU, e, r, s)
    ensures LeadsTo(h, f(me), ifaces, idV, e, f(r), s)
  {
    hide IsDistance;
    RenamedDistance(g, h, f, me, r, e.numHops);
    if r != me {
      var y :| y in g[me] && FirstHop(g, me, ifaces, idU, e, r, y);
      RenamedDistance(g, h, f, y, r, e.numHops - 1);
      assert FirstHop(h, f(me), ifaces, idV, e, f(r), f(y));
    }
  }

  lemma RenamedGenuine<U, V>(g: Graph<U>, h: Graph<V>, f: U -> V, me: U, a: map<U, seq<Route>>, b: map<V, seq<Route>>,
                             ifaces: seq<Iface>, idU: U -> Word, idV: V -> Word, e: Entry)
    requires Renames(g, h, f) && me in g && a.Keys == g.Keys && RenamesSubnets(a, b, f)
    requires (forall u | u in g :: idU(u) == idV(f(u))) && Genuine(g, me, a, ifaces, idU, e)
    ensures Genuine(h, f(me), b, ifaces, idV, e)
  {
    hide LeadsTo, Renames;
    var r, s :| r in a && s in a[r] && LeadsTo(g, me, ifaces, idU, e, r, s);
    RenamedLeadsTo(g, h, f, me, ifaces, idU, idV, e, r, s);
    assert f(r) in b && s in b[f(r)];
  }

  lemma RenamedCovered<U, V>(g: Graph<U>, h: Graph<V>, f: U -> V, me: U, t: seq<Entry>, r: U, s: Route)
    requires Renames(g, h, f) && me in g && r in g && Covered(g, me, t, r, s)
    ensures Covered(h, f(me), t, f(r), s)
  {
    hide IsDistance, Renames;
    var e :| e in t && HasKey(e, s) && NoFarther(g, me, e, r);
    var d: nat :| IsDistance(g, me, r, d) && e.numHops <= d;
    RenamedDistance(g, h, f, me, r, d);
    assert NoFarther(h, f(me), e, f(r));
  }

  /** A table right for a topology is right for the renamed topology. */
  lemma RenamedTable<U, V>(g: Graph<U>, h: Graph<V>, f: U -> V, me: U, a: map<U, seq<Route>>, b: map<V, seq<Route>>,
                           ifaces: seq<Iface>, idU: U -> Word, idV: V -> Word, t: seq<Entry>)
    requires Renames(g, h, f) && me in g && a.Keys == g.Keys && RenamesSubnets(a, b, f)
    requires forall u | u in g :: idU(u) == idV(f(u))
    requires TableCorrect(g, me, a, ifaces, idU, t)
    ensures TableCorrect(h, f(me), b, ifaces, idV, t)
  {
    hide Genuine, Covered, Renames;
    forall e | e in t
      ensures Genuine(h, f(me), b, ifaces, idV, e)
    {
      RenamedGenuine(g, h, f, me, a, b, ifaces, idU, idV, e);
    }
    forall x, s | x in b && s in b[x]
      ensures Covered(h, f(me), t, x, s)
    {
      var r :| r in a && f(r) == x;
      RenamedCovered(g, h, f, me, t, r, s);
    }
  }
}

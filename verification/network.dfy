/** A whole network of routers, each with the table it computed from what the others advertise: how
    packets travel from router to router. */
module Network {
  import opened Graphs
  import opened Records
  import opened Forwarding
  import opened Lookup

  /** `own` are the subnets each router holds and `statics` its static routes, which it advertises but
      does not put in its own database; `owner` says which router answers to an interface address. */
  datatype Net = Net(links: Graph<Word>, own: map<Word, seq<Route>>, statics: map<Word, seq<Route>>,
                     ifaces: map<Word, seq<Iface>>, owner: map<Word, Word>)

  type Tables = map<Word, seq<Entry>>

  ghost predicate SameRouters(n: Net) {
    && Closed(n.links) && n.own.Keys == n.links.Keys && n.statics.Keys == n.links.Keys
    && n.ifaces.Keys == n.links.Keys
  }

  /** Every router's table is right for what it should know, and it hears every router it is linked with. */
  ghost predicate Converged(n: Net, t: Tables) {
    && SameRouters(n) && t.Keys == n.links.Keys
    && (forall x | x in n.links ::
          TableCorrect(n.links, x, View(n.own, n.statics, x), n.ifaces[x], Self, t[x]))
    && (forall x, y | x in n.links && y in n.links[x] :: HeardFrom(n, x, y))
  }

  /** Router `x` hears HELLOs from `y`, and the address it keeps for `y` belongs to `y`. */
  ghost predicate HeardFrom(n: Net, x: Word, y: Word)
    requires x in n.ifaces
  {
    HopVia(n.ifaces[x], y).0 in n.owner && n.owner[HopVia(n.ifaces[x], y).0] == y
  }

  // ---- who originates a key ----

  ghost predicate Holds(n: Net, r: Word, k: Key) {
    r in n.own && k in KeysOf(n.own[r])
  }

  ghost predicate Originates(n: Net, r: Word, k: Key) {
    Holds(n, r, k) || (r in n.statics && k in KeysOf(n.statics[r]))
  }

  /** Router `r` advertises the key for a static route only, so its own database lacks it. */
  ghost predicate StaticOnly(n: Net, r: Word, k: Key) {
    Originates(n, r, k) && !Holds(n, r, k)
  }

  /** Router `x` knows that `r` has the key. */
  ghost predicate Visible(n: Net, x: Word, r: Word, k: Key) {
    Originates(n, r, k) && (r == x ==> Holds(n, r, k))
  }

  lemma ViewIsVisible(n: Net, x: Word, r: Word, k: Key)
    requires SameRouters(n)
    ensures Visible(n, x, r, k) <==> r in n.own && k in KeysOf(View(n.own, n.statics, x)[r])
  {
    if r in n.own {
      KeysOfBoth(n.own[r], n.statics[r]);
    }
  }

  /** `r` is a router nearest to `x`, at distance `d`, among those it knows to have the key. */
  ghost predicate Nearest(n: Net, x: Word, k: Key, r: Word, d: nat) {
    && Visible(n, x, r, k) && IsDistance(n.links, x, r, d)
    && forall q, e: nat | Visible(n, x, q, k) && IsDistance(n.links, x, q, e) :: d <= e
  }

  /** `y` is a first hop on a shortest path from `x` to a nearest router with the key. */
  ghost predicate MayHop(n: Net, x: Word, k: Key, y: Word) {
    && x in n.links && y in n.links[x]
    && exists r, d: nat :: 0 < d && Nearest(n, x, k, r, d) && IsDistance(n.links, y, r, d - 1)
  }

  // ---- what the tables say ----

  lemma DistancesAgree(g: Graph<Word>, s: Word, t: Word, d: nat, e: nat)
    requires IsDistance(g, s, t, d) && IsDistance(g, s, t, e)
    ensures d == e
  {
  }

  lemma ZeroDistance(g: Graph<Word>, x: Word, r: Word, d: nat)
    requires IsDistance(g, x, r, d)
    ensures d == 0 <==> r == x
  {
    Stay(g, x);
  }

  lemma TableOf(n: Net, t: Tables, x: Word)
    requires Converged(n, t) && x in n.links
    ensures SameRouters(n) && x in n.own && x in n.statics && x in n.ifaces && x in t && n.links[x] <= n.links.Keys
    ensures TableCorrect(n.links, x, View(n.own, n.statics, x), n.ifaces[x], Self, t[x])
    ensures forall y | y in n.links[x] :: HeardFrom(n, x, y)
  {
    hide TableCorrect, HeardFrom;
  }

  /** The router that an entry stands for. */
  ghost predicate StandsFor(n: Net, x: Word, e: Entry, r: Word)
    requires x in n.ifaces && x in n.links && x in n.own
  {
    && 0 <= e.numHops && Visible(n, x, r, KeyOf(e)) && IsDistance(n.links, x, r, e.numHops)
    && (r == x ==> exists s | s in n.own[x] :: HasKey(e, s) && SubnetIface(n.ifaces[x], s.prefix) == Some(e.iface))
    && (r != x ==> 0 < e.numHops && exists y | y in n.links[x] :: FirstHop(n.links, x, n.ifaces[x], Self, e, r, y))
  }

  lemma EntryLeads(n: Net, t: Tables, x: Word, e: Entry) returns (r: Word)
    requires Converged(n, t) && x in n.links && x in t && e in t[x]
    ensures x in n.ifaces && x in n.own && StandsFor(n, x, e, r)
  {
    TableOf(n, t, x);
    hide Converged, HeardFrom, TableCorrect, StandsFor;
    r := GenuineStandsFor(n, x, t[x], e);
  }

  lemma GenuineStandsFor(n: Net, x: Word, t: seq<Entry>, e: Entry) returns (r: Word)
    requires SameRouters(n) && x in n.links && e in t
    requires TableCorrect(n.links, x, View(n.own, n.statics, x), n.ifaces[x], Self, t)
    ensures StandsFor(n, x, e, r)
  {
    hide Covered, DistinctKeys, LeadsTo, StandsFor, View;
    var v := View(n.own, n.statics, x);
    assert Genuine<Word>(n.links, x, v, n.ifaces[x], Self, e);
    var s;
    r, s :| r in v && s in v[r] && LeadsTo(n.links, x, n.ifaces[x], Self, e, r, s);
    LeadsStandsFor(n, x, e, r, s);
  }

  lemma LeadsStandsFor(n: Net, x: Word, e: Entry, r: Word, s: Route)
    requires SameRouters(n) && x in n.links
    requires var v := View(n.own, n.statics, x); r in v && s in v[r] && LeadsTo(n.links, x, n.ifaces[x], Self, e, r, s)
    ensures StandsFor(n, x, e, r)
  {
    hide IsDistance, Visible, FirstHop, SubnetIface;
    assert KeyOf(e) in KeysOf(View(n.own, n.statics, x)[r]);
    ViewIsVisible(n, x, r, KeyOf(e));
  }

  /** The part of it that distances depend on. */
  lemma EntryVisible(n: Net, t: Tables, x: Word, e: Entry) returns (r: Word)
    requires Converged(n, t) && x in n.links && x in t && e in t[x]
    ensures 0 <= e.numHops && Nearest(n, x, KeyOf(e), r, e.numHops)
  {
    hide Converged, IsDistance, Visible, Nearest;
    r := EntryLeads(n, t, x, e);
    EntryIsNearest(n, t, x, e, r);
  }

  /** An entry that is not for the router itself names a neighbour it hears. */
  lemma HeardHop(n: Net, t: Tables, x: Word, e: Entry, r: Word)
    requires Converged(n, t) && x in n.links && x in n.ifaces && x in n.own && StandsFor(n, x, e, r)
    ensures r != x ==>
              && e.nextHop in n.owner && n.owner[e.nextHop] in n.links[x] && 0 < e.numHops
              && IsDistance(n.links, n.owner[e.nextHop], r, e.numHops - 1)
  {
    TableOf(n, t, x);
    hide Converged, IsDistance, Visible, HopVia;
    if r != x {
      var y :| y in n.links[x] && FirstHop(n.links, x, n.ifaces[x], Self, e, r, y);
      assert HeardFrom(n, x, y);
    }
  }

  /** The entry for a key that some known router has. */
  lemma EntryFor(n: Net, t: Tables, x: Word, r: Word, k: Key) returns (c: Entry, d: nat)
    requires Converged(n, t) && x in n.links && Visible(n, x, r, k)
    ensures x in t && c in t[x] && KeyOf(c) == k && IsDistance(n.links, x, r, d) && c.numHops <= d
  {
    TableOf(n, t, x);
    hide Converged, HeardFrom, Genuine, IsDistance, Visible;
    ViewIsVisible(n, x, r, k);
    var v := View(n.own, n.statics, x);
    var s: Route :| s in v[r] && Key(s.prefix, s.mask) == k;
    assert Covered(n.links, x, t[x], r, s);
    c :| c in t[x] && HasKey(c, s) && NoFarther(n.links, x, c, r);
    d :| IsDistance(n.links, x, r, d) && c.numHops <= d;
  }

  lemma KeyIsUnique(n: Net, t: Tables, x: Word, e: Entry, c: Entry)
    requires Converged(n, t) && x in n.links && x in t && e in t[x] && c in t[x] && KeyOf(e) == KeyOf(c)
    ensures e == c
  {
    TableOf(n, t, x);
    hide Converged, HeardFrom, Genuine, Covered;
    UniqueIn(t[x], e, c);
  }

  lemma UniqueIn(t: seq<Entry>, e: Entry, c: Entry)
    requires DistinctKeys(t) && e in t && c in t && KeyOf(e) == KeyOf(c)
    ensures e == c
  {
    var i :| 0 <= i < |t| && t[i] == e;
    var j :| 0 <= j < |t| && t[j] == c;
    assert SameKey(t[i], t[j]) && SameKey(t[j], t[i]);
  }

  /** An entry leads to a nearest router with its key. */
  lemma EntryIsNearest(n: Net, t: Tables, x: Word, e: Entry, r: Word)
    requires Converged(n, t) && x in n.links && x in t && e in t[x] && x in n.ifaces && x in n.own
             && StandsFor(n, x, e, r)
    ensures Nearest(n, x, KeyOf(e), r, e.numHops)
  {
    hide Converged, Visible;
    forall q, d: nat | Visible(n, x, q, KeyOf(e)) && IsDistance(n.links, x, q, d)
      ensures e.numHops <= d
    {
      hide IsDistance, StandsFor;
      var c, f := EntryFor(n, t, x, q, KeyOf(e));
      KeyIsUnique(n, t, x, e, c);
      DistancesAgree(n.links, x, q, d, f);
    }
  }

  /** A router's own subnet is at no hops. */
  lemma OwnIsNearest(n: Net, x: Word, k: Key, r: Word, d: nat)
    requires Nearest(n, x, k, r, d)
    ensures d == 0 <==> Holds(n, x, k)
  {
    ZeroDistance(n.links, x, r, d);
    if Holds(n, x, k) {
      Stay(n.links, x);
      assert IsDistance(n.links, x, x, 0);
      assert Visible(n, x, x, k);
    }
  }

  /** Crossing a link takes at most one hop off the distance. */
  lemma TriangleByEdge(g: Graph<Word>, x: Word, y: Word, r: Word, f: nat) returns (d: nat)
    requires x in g && y in g[x] && IsDistance(g, y, r, f)
    ensures IsDistance(g, x, r, d) && d <= f + 1
  {
    Edge(g, x, y);
    Compose(g, x, y, r, 1, f);
    d := DistanceExists(g, x, r);
  }

  lemma Neighbour(g: Graph<Word>, x: Word, y: Word)
    requires x in g && y in g[x] && x != y
    ensures IsDistance(g, x, y, 1)
  {
    Edge(g, x, y);
    assert !Walk(g, x, y, 0);
  }

  /** The first hop towards a key either has the key for a static route only, and is then the router looked
      for, or has an entry for the key that is one hop closer. */
  lemma NextHopIsCloser(n: Net, t: Tables, x: Word, e: Entry, y: Word) returns (f: Entry)
    requires Converged(n, t) && x in n.links && x in t && e in t[x] && 0 < e.numHops && MayHop(n, x, KeyOf(e), y)
    ensures y in n.links && y in t
    ensures StaticOnly(n, y, KeyOf(e)) ==> e.numHops == 1
    ensures !StaticOnly(n, y, KeyOf(e)) ==> f in t[y] && KeyOf(f) == KeyOf(e) && 0 <= f.numHops <= e.numHops - 1
    ensures !StaticOnly(n, y, KeyOf(e)) && !StaticOnly(n, x, KeyOf(e)) ==> f.numHops == e.numHops - 1
  {
    var k := KeyOf(e);
    TableOf(n, t, x);
    f := e;
    assert y in n.links[x];
    var r, d := HopOf(n, t, x, e, y);
    assert Originates(n, r, k);
    hide Converged, IsDistance, Nearest, MayHop, Originates, Holds, TableCorrect, HeardFrom;
    TableOf(n, t, y);
    if StaticOnly(n, y, k) {
      StaticNeighbour(n, x, k, r, d, y);
    } else {
      assert Visible(n, y, r, k);
      hide StaticOnly, Visible;
      var g;
      f, g := EntryFor(n, t, y, r, k);
      DistancesAgree(n.links, y, r, g, d - 1);
      var q := EntryVisible(n, t, y, f);
      if !StaticOnly(n, x, k) {
        NoCloserBehind(n, x, k, r, d, y, q, f.numHops);
      }
    }
  }

  /** What MayHop stands for, read off an entry. */
  lemma HopOf(n: Net, t: Tables, x: Word, e: Entry, y: Word) returns (r: Word, d: nat)
    requires Converged(n, t) && x in n.links && x in t && e in t[x] && MayHop(n, x, KeyOf(e), y)
    ensures 0 < d && d == e.numHops && Nearest(n, x, KeyOf(e), r, d) && IsDistance(n.links, y, r, d - 1)
  {
    hide Converged, IsDistance;
    r, d :| 0 < d && Nearest(n, x, KeyOf(e), r, d) && IsDistance(n.links, y, r, d - 1);
    var q := EntryLeads(n, t, x, e);
    EntryIsNearest(n, t, x, e, q);
  }

  lemma StaticNeighbour(n: Net, x: Word, k: Key, r: Word, d: nat, y: Word)
    requires x in n.links && y in n.links[x] && 0 < d && Nearest(n, x, k, r, d) && IsDistance(n.links, y, r, d - 1)
    requires StaticOnly(n, y, k)
    ensures d == 1
  {
    CloserIsOther(n.links, x, y, r, d);
    Neighbour(n.links, x, y);
    hide IsDistance;
    assert Visible(n, x, y, k);
  }

  lemma CloserIsOther(g: Graph<Word>, x: Word, y: Word, r: Word, d: nat)
    requires 0 < d && IsDistance(g, x, r, d) && IsDistance(g, y, r, d - 1)
    ensures x != y
  {
  }

  lemma NoCloserBehind(n: Net, x: Word, k: Key, r: Word, d: nat, y: Word, q: Word, f: nat)
    requires x in n.links && y in n.links[x] && 0 < d && Nearest(n, x, k, r, d) && !StaticOnly(n, x, k)
    requires Nearest(n, y, k, q, f)
    ensures d - 1 <= f
  {
    OwnIsNearest(n, x, k, r, d);
    hide IsDistance, Holds;
    var g := TriangleByEdge(n.links, x, y, q, f);
    assert Visible(n, x, q, k);
  }

  // ---- which entry a packet takes ----

  predicate MatchesKey(k: Key, dst: Word) {
    And(k.mask, dst) == k.prefix
  }

  /** The longest key that some router originates for a destination. */
  ghost predicate Top(n: Net, dst: Word, k: Key) {
    && MatchesKey(k, dst) && (exists r :: Originates(n, r, k))
    && forall r, j | Originates(n, r, j) && MatchesKey(j, dst) :: j.mask <= k.mask
  }

  /** The longest key that router `x` knows for a destination. */
  ghost predicate LongestKnown(n: Net, x: Word, dst: Word, k: Key) {
    && MatchesKey(k, dst) && (exists r :: Visible(n, x, r, k))
    && forall r, j | Visible(n, x, r, j) && MatchesKey(j, dst) :: j.mask <= k.mask
  }

  lemma SameMask(j: Key, k: Key, dst: Word)
    requires MatchesKey(j, dst) && MatchesKey(k, dst) && j.mask == k.mask
    ensures j == k
  {
  }

  /** A lookup finds the longest key the router knows. */
  lemma ChoiceIsLongest(n: Net, t: Tables, x: Word, dst: Word, k: Key) returns (e: Entry)
    requires Converged(n, t) && x in n.links && LongestKnown(n, x, dst, k)
    ensures x in t && Best(t[x], dst) == Some(e) && e in t[x] && KeyOf(e) == k
  {
    hide Converged, Visible, And;
    var r :| Visible(n, x, r, k);
    var c, d := EntryFor(n, t, x, r, k);
    var i :| 0 <= i < |t[x]| && t[x][i] == c;
    assert Matches(c, dst);
    var j := BestIsSelected(t[x], dst);
    e := t[x][j];
    var q := EntryLeads(n, t, x, e);
    SameMask(KeyOf(e), k, dst);
  }

  lemma ChoiceIsLongestKnown(n: Net, t: Tables, x: Word, dst: Word, e: Entry)
    requires Converged(n, t) && x in n.links && x in t && Best(t[x], dst) == Some(e)
    ensures e in t[x] && LongestKnown(n, x, dst, KeyOf(e))
  {
    hide Converged, Visible, And;
    var j := BestIsSelected(t[x], dst);
    var q := EntryLeads(n, t, x, e);
    assert Visible(n, x, q, KeyOf(e));
    forall r, k | Visible(n, x, r, k) && MatchesKey(k, dst)
      ensures k.mask <= e.mask
    {
      var c, d := EntryFor(n, t, x, r, k);
      var i :| 0 <= i < |t[x]| && t[x][i] == c;
      assert Matches(c, dst);
    }
  }

  lemma NoChoice(n: Net, t: Tables, x: Word, dst: Word)
    requires Converged(n, t) && x in n.links && x in t && Best(t[x], dst).None?
    ensures forall r, k | Visible(n, x, r, k) :: !MatchesKey(k, dst)
  {
    hide Converged, Visible, And;
    var j := BestIsSelected(t[x], dst);
    forall r, k | Visible(n, x, r, k)
      ensures !MatchesKey(k, dst)
    {
      var c, d := EntryFor(n, t, x, r, k);
      var i :| 0 <= i < |t[x]| && t[x][i] == c;
      assert !Matches(c, dst);
    }
  }

  /** All routers choose the longest key of the network, but for the only one that has it when that one has
      it for a static route. */
  lemma TopIsKnown(n: Net, x: Word, dst: Word, k: Key)
    requires Top(n, dst, k) && (StaticOnly(n, x, k) ==> exists r :: r != x && Originates(n, r, k))
    ensures LongestKnown(n, x, dst, k)
  {
    if StaticOnly(n, x, k) {
      var r :| r != x && Originates(n, r, k);
      assert Visible(n, x, r, k);
    } else {
      var r :| Originates(n, r, k);
      assert Visible(n, x, r, k);
    }
  }

  /** A destination with any matching key has a longest one. */
  lemma TopExists(n: Net, dst: Word, r: Word, j: Key) returns (k: Key)
    requires Originates(n, r, j) && MatchesKey(j, dst)
    ensures Top(n, dst, k)
  {
    hide Originates, MatchesKey;
    k := j;
    while exists q, i :: Originates(n, q, i) && MatchesKey(i, dst) && k.mask < i.mask
      invariant MatchesKey(k, dst) && exists q :: Originates(n, q, k)
      decreases 0x1_0000_0000 - k.mask
    {
      var q, i :| Originates(n, q, i) && MatchesKey(i, dst) && k.mask < i.mask;
      k := i;
    }
  }

  // ---- packets ----

  /** The destination is one of the router's own interfaces. */
  ghost predicate Mine(n: Net, x: Word, dst: Word) {
    x in n.ifaces && exists f :: f in n.ifaces[x] && f.address == dst
  }

  /** The router that `x` hands a packet for `dst` to: none when the packet is for `x` itself, when the
      entry is local, or when there is no entry and the static routes take over. */
  ghost function Next(n: Net, t: Tables, x: Word, dst: Word): Option<Word> {
    if Mine(n, x, dst) || x !in t then None
    else match Best(t[x], dst)
      case None => None
      case Some(e) => if e.numHops <= 0 || e.nextHop !in n.owner then None else Some(n.owner[e.nextHop])
  }

  lemma NextMayHop(n: Net, t: Tables, x: Word, dst: Word, y: Word) returns (e: Entry)
    requires Converged(n, t) && x in n.links && Next(n, t, x, dst) == Some(y)
    ensures x in t && !Mine(n, x, dst) && Best(t[x], dst) == Some(e) && e in t[x] && 0 < e.numHops
    ensures LongestKnown(n, x, dst, KeyOf(e)) && MayHop(n, x, KeyOf(e), y) && y in n.links
  {
    TableOf(n, t, x);
    e := Best(t[x], dst).value;
    hide Converged, Mine, IsDistance, LongestKnown, Visible, Best, TableCorrect;
    ChoiceIsLongestKnown(n, t, x, dst, e);
    var r := EntryLeads(n, t, x, e);
    ZeroDistance(n.links, x, r, e.numHops);
    EntryIsNearest(n, t, x, e, r);
    HeardHop(n, t, x, e, r);
  }

  /** Where the packet stops, and why. */
  lemma WhereItEnds(n: Net, t: Tables, z: Word, dst: Word)
    requires Converged(n, t) && z in n.links && Next(n, t, z, dst) == None && !Mine(n, z, dst)
    ensures z in t && z in n.own && z in n.statics && z in n.ifaces
    ensures match Best(t[z], dst)
            case Some(e) => e.numHops == 0 && exists s | s in n.own[z] ::
                            HasKey(e, s) && SubnetIface(n.ifaces[z], s.prefix) == Some(e.iface)
            case None => forall k | Top(n, dst, k) ::
                           StaticOnly(n, z, k) && exists s | s in n.statics[z] :: Key(s.prefix, s.mask) == k
  {
    TableOf(n, t, z);
    hide Converged, Mine;
    match Best(t[z], dst)
    case Some(e) =>
      EndsLocally(n, t, z, dst, e);
    case None =>
      NoChoice(n, t, z, dst);
      forall k | Top(n, dst, k)
        ensures StaticOnly(n, z, k) && exists s | s in n.statics[z] :: Key(s.prefix, s.mask) == k
      {
        EndsStatically(n, z, dst, k);
      }
  }

  lemma EndsLocally(n: Net, t: Tables, z: Word, dst: Word, e: Entry)
    requires Converged(n, t) && z in n.links && z in t && Best(t[z], dst) == Some(e) && z in n.own && z in n.ifaces
    requires e.numHops <= 0 || e.nextHop !in n.owner
    ensures e.numHops == 0 && exists s | s in n.own[z] ::
            HasKey(e, s) && SubnetIface(n.ifaces[z], s.prefix) == Some(e.iface)
  {
    hide Converged, IsDistance, LongestKnown, Visible, Best;
    ChoiceIsLongestKnown(n, t, z, dst, e);
    var r := EntryLeads(n, t, z, e);
    HeardHop(n, t, z, e, r);
    ZeroDistance(n.links, z, r, e.numHops);
  }

  lemma EndsStatically(n: Net, z: Word, dst: Word, k: Key)
    requires z in n.statics && Top(n, dst, k) && forall r, j | Visible(n, z, r, j) :: !MatchesKey(j, dst)
    ensures StaticOnly(n, z, k) && exists s | s in n.statics[z] :: Key(s.prefix, s.mask) == k
  {
    var r :| Originates(n, r, k);
    assert !Visible(n, z, r, k);
  }

  /** The routers that a packet visits from `x`, at most `fuel` hops. */
  ghost function Trace(n: Net, t: Tables, x: Word, dst: Word, fuel: nat): seq<Word>
    decreases fuel
  {
    match Next(n, t, x, dst)
    case None => [x]
    case Some(y) => if fuel == 0 then [x] else [x] + Trace(n, t, y, dst, fuel - 1)
  }

  /** Router `x` has an entry for the key at `h` hops. */
  ghost predicate HopsLeft(t: Tables, x: Word, k: Key, h: int) {
    x in t && exists e | e in t[x] :: KeyOf(e) == k && e.numHops == h
  }

  /** Trace `p` of a packet starts at `h` hops from the key and loses one at every router, to a router that
      originates the key, unless the packet is for a router on the way. */
  ghost predicate Arrives(n: Net, t: Tables, dst: Word, k: Key, h: nat, p: seq<Word>) {
    && 0 < |p| <= h + 1 && (forall i | 0 <= i < |p| && i < h :: HopsLeft(t, p[i], k, h - i))
    && ((|p| == h + 1 && Originates(n, p[h], k)) || Mine(n, p[|p| - 1], dst))
  }

  /** From any router that does not itself have the longest key for a static route only, a packet takes
      exactly as many hops as that router's entry says, one closer at every router, to a router that
      originates the key, unless it is for a router on the way. */
  lemma {:induction false} ReachesOriginator(n: Net, t: Tables, x: Word, dst: Word, k: Key, e: Entry)
    requires Converged(n, t) && x in n.links && x in t && Top(n, dst, k) && !StaticOnly(n, x, k)
    requires Best(t[x], dst) == Some(e)
    ensures KeyOf(e) == k && 0 <= e.numHops && Arrives(n, t, dst, k, e.numHops, Trace(n, t, x, dst, e.numHops))
    decreases e.numHops
  {
    ChoiceIsTop(n, t, x, dst, k, e);
    hide Converged, Mine, Next, Best, MayHop, Top, StaticOnly, Arrives, KeyOf, Trace, LongestKnown;
    if e.numHops == 0 || Mine(n, x, dst) {
      ArrivesAtOnce(n, t, x, dst, e);
    } else {
      var y := NextIs(n, t, x, dst, e);
      var c := NextMayHop(n, t, x, dst, y);
      var f := NextHopIsCloser(n, t, x, e, y);
      if StaticOnly(n, y, k) {
        ArrivesNext(n, t, x, y, dst, e);
      } else {
        TopIsKnown(n, y, dst, k);
        var g := ChoiceIsLongest(n, t, y, dst, k);
        KeyIsUnique(n, t, y, f, g);
        ReachesOriginator(n, t, y, dst, k, f);
        ArrivesLater(n, t, x, y, dst, e, f);
      }
    }
  }

  lemma ArrivesAtOnce(n: Net, t: Tables, x: Word, dst: Word, e: Entry)
    requires Converged(n, t) && x in n.links && x in t && e in t[x] && 0 <= e.numHops
    requires Best(t[x], dst) == Some(e) && (e.numHops == 0 || Mine(n, x, dst))
    ensures Arrives(n, t, dst, KeyOf(e), e.numHops, Trace(n, t, x, dst, e.numHops))
  {
    hide Converged, Mine, Originates, Best, KeyOf;
    assert Next(n, t, x, dst) == None;
    assert Trace(n, t, x, dst, e.numHops) == [x];
    hide Next, Trace;
    FirstHopsLeft(t, x, e);
    if e.numHops == 0 {
      HolderAtZero(n, t, x, e);
    }
  }

  lemma ArrivesNext(n: Net, t: Tables, x: Word, y: Word, dst: Word, e: Entry)
    requires Next(n, t, x, dst) == Some(y) && x in t && e in t[x] && e.numHops == 1 && StaticOnly(n, y, KeyOf(e))
    ensures Arrives(n, t, dst, KeyOf(e), 1, Trace(n, t, x, dst, 1))
  {
    ShortTrace(n, t, x, y, dst);
    StaticOriginates(n, y, KeyOf(e));
    FirstHopsLeft(t, x, e);
  }

  lemma ArrivesLater(n: Net, t: Tables, x: Word, y: Word, dst: Word, e: Entry, f: Entry)
    requires Next(n, t, x, dst) == Some(y) && x in t && e in t[x] && 0 <= f.numHops == e.numHops - 1
    requires Arrives(n, t, dst, KeyOf(e), f.numHops, Trace(n, t, y, dst, f.numHops))
    ensures Arrives(n, t, dst, KeyOf(e), e.numHops, Trace(n, t, x, dst, e.numHops))
  {
    var (p, q) := (Trace(n, t, x, dst, e.numHops), Trace(n, t, y, dst, f.numHops));
    hide Next, HopsLeft, Mine, Originates;
    assert p == [x] + q;
    FirstHopsLeft(t, x, e);
    forall i | 0 <= i < |p| && i < e.numHops
      ensures HopsLeft(t, p[i], KeyOf(e), e.numHops - i)
    {
      if i > 0 {
        assert p[i] == q[i - 1] && HopsLeft(t, q[i - 1], KeyOf(e), f.numHops - (i - 1));
      }
    }
  }

  lemma StaticOriginates(n: Net, y: Word, k: Key)
    requires StaticOnly(n, y, k)
    ensures Originates(n, y, k)
  {
  }

  lemma ChoiceIsTop(n: Net, t: Tables, x: Word, dst: Word, k: Key, e: Entry)
    requires Converged(n, t) && x in n.links && x in t && Top(n, dst, k) && !StaticOnly(n, x, k)
             && Best(t[x], dst) == Some(e)
    ensures e in t[x] && KeyOf(e) == k && 0 <= e.numHops
  {
    hide Converged, Top, StaticOnly, Best;
    TopIsKnown(n, x, dst, k);
    var c := ChoiceIsLongest(n, t, x, dst, k);
    var r := EntryLeads(n, t, x, e);
  }

  lemma HolderAtZero(n: Net, t: Tables, x: Word, e: Entry)
    requires Converged(n, t) && x in n.links && x in t && e in t[x] && e.numHops == 0
    ensures Originates(n, x, KeyOf(e))
  {
    hide Converged, IsDistance;
    var r := EntryLeads(n, t, x, e);
    ZeroDistance(n.links, x, r, 0);
  }

  lemma NextIs(n: Net, t: Tables, x: Word, dst: Word, e: Entry) returns (y: Word)
    requires Converged(n, t) && x in n.links && x in t && Best(t[x], dst) == Some(e) && 0 < e.numHops
             && !Mine(n, x, dst)
    ensures Next(n, t, x, dst) == Some(y)
  {
    hide Converged, IsDistance, LongestKnown, Visible, Best, Mine;
    ChoiceIsLongestKnown(n, t, x, dst, e);
    var r := EntryLeads(n, t, x, e);
    ZeroDistance(n.links, x, r, e.numHops);
    HeardHop(n, t, x, e, r);
    y := n.owner[e.nextHop];
  }

  lemma ShortTrace(n: Net, t: Tables, x: Word, y: Word, dst: Word)
    requires Next(n, t, x, dst) == Some(y)
    ensures Trace(n, t, x, dst, 1) == [x, y]
  {
    hide Next;
    assert Trace(n, t, y, dst, 0) == [y];
  }

  lemma FirstHopsLeft(t: Tables, x: Word, e: Entry)
    requires x in t && e in t[x]
    ensures HopsLeft(t, x, KeyOf(e), e.numHops)
  {
  }
}

/** When packets loop. Static routes are advertised to the other routers but looked up last by the router
    that has them, so a packet can be sent back by the very router it was sent to. */
module PacketLoops {
  import opened Forwarding
  import opened Graphs
  import opened Lookup
  import opened Network
  import opened Records

  /** Links go both ways. */
  ghost predicate TwoWay(n: Net) {
    forall x, y | x in n.links && y in n.links[x] :: y in n.links && x in n.links[y]
  }

  /** Router `x` has the longest key `k` for the destination for a static route only, so it follows the
      longest key `c` that others taught it, by way of `y`, and `y`, which does not hold `k` itself, may send
      the packet back. Who originates what, and distances, decide this; the tables do not matter. */
  ghost predicate Bounce(n: Net, dst: Word, k: Key, c: Key, x: Word, y: Word) {
    && Top(n, dst, k) && StaticOnly(n, x, k) && LongestKnown(n, x, dst, c) && MayHop(n, x, c, y)
    && !Holds(n, y, k) && !Mine(n, x, dst) && !Mine(n, y, dst)
  }

  ghost predicate NoBounce(n: Net, dst: Word) {
    forall k, c, x, y :: !Bounce(n, dst, k, c, x, y)
  }

  ghost predicate Distinct(p: seq<Word>) {
    forall i, j | 0 <= i < j < |p| :: p[i] != p[j]
  }

  /** No packet for the destination visits a router twice, from wherever it starts. */
  ghost predicate NeverLoops(n: Net, t: Tables, dst: Word) {
    forall x, fuel: nat | x in n.links :: Distinct(Trace(n, t, x, dst, fuel))
  }

  // ---- without a bounce ----

  /** What falls at every hop: the hops left, with room below for a router that has the key for a static
      route only and for the one that keeps the packet. */
  ghost function Rank(n: Net, t: Tables, dst: Word, k: Key, z: Word): nat {
    if Next(n, t, z, dst) == None then 0
    else if StaticOnly(n, z, k) then 1
    else Best(t[z], dst).value.numHops + 2
  }

  /** A router that holds the longest key keeps the packet. */
  lemma HolderKeeps(n: Net, t: Tables, dst: Word, k: Key, y: Word)
    requires Converged(n, t) && Top(n, dst, k) && y in n.links && Holds(n, y, k)
    ensures Next(n, t, y, dst) == None
  {
    hide Converged, IsDistance, Mine, Best, Nearest;
    TopIsKnown(n, y, dst, k);
    hide Top, LongestKnown;
    var e := ChoiceIsLongest(n, t, y, dst, k);
    var r := EntryVisible(n, t, y, e);
    OwnIsNearest(n, y, k, r, e.numHops);
  }

  /** Without the static route oneself, the hops left fall. */
  lemma HopsFall(n: Net, t: Tables, dst: Word, k: Key, z: Word, y: Word, e: Entry)
    requires Converged(n, t) && Top(n, dst, k) && z in n.links && !StaticOnly(n, z, k) && z in t && e in t[z]
    requires Best(t[z], dst) == Some(e) && 0 < e.numHops && MayHop(n, z, KeyOf(e), y)
    requires LongestKnown(n, z, dst, KeyOf(e))
    ensures y in n.links && y in t
    ensures !StaticOnly(n, y, k) ==> Best(t[y], dst).Some? && Best(t[y], dst).value.numHops < e.numHops
  {
    hide Converged, Best, MayHop, Top, LongestKnown, StaticOnly, MatchesKey;
    TopIsKnown(n, z, dst, k);
    LongestIsOne(n, z, dst, k, KeyOf(e));
    var f := NextHopIsCloser(n, t, z, e, y);
    if !StaticOnly(n, y, k) {
      TopIsKnown(n, y, dst, k);
      var g := ChoiceIsLongest(n, t, y, dst, k);
      KeyIsUnique(n, t, y, f, g);
    }
  }

  lemma LongestIsOne(n: Net, x: Word, dst: Word, j: Key, k: Key)
    requires LongestKnown(n, x, dst, j) && LongestKnown(n, x, dst, k)
    ensures j == k
  {
    hide Visible, And;
    var q :| Visible(n, x, q, j);
    var r :| Visible(n, x, r, k);
    SameMask(j, k, dst);
  }

  lemma RankFalls(n: Net, t: Tables, dst: Word, k: Key, z: Word, y: Word)
    requires Converged(n, t) && Top(n, dst, k) && NoBounce(n, dst) && z in n.links && Next(n, t, z, dst) == Some(y)
    ensures y in n.links && Rank(n, t, dst, k, y) < Rank(n, t, dst, k, z)
  {
    var e := NextMayHop(n, t, z, dst, y);
    hide Converged, Mine, Best, MayHop, Top, LongestKnown, NoBounce, StaticOnly, Holds, KeyOf, Next;
    if StaticOnly(n, z, k) {
      StaticRankFalls(n, t, dst, k, KeyOf(e), z, y);
    } else {
      HopsFall(n, t, dst, k, z, y, e);
    }
  }

  lemma StaticRankFalls(n: Net, t: Tables, dst: Word, k: Key, c: Key, z: Word, y: Word)
    requires Converged(n, t) && Top(n, dst, k) && NoBounce(n, dst) && StaticOnly(n, z, k) && y in n.links
    requires LongestKnown(n, z, dst, c) && MayHop(n, z, c, y) && !Mine(n, z, dst)
    ensures Next(n, t, y, dst) == None
  {
    hide Converged, Best, MayHop, Top, LongestKnown, StaticOnly, Holds;
    assert !Bounce(n, dst, k, c, z, y);
    if Holds(n, y, k) {
      HolderKeeps(n, t, dst, k, y);
    }
  }

  /** Along trace `p` of at most `fuel` hops from `x` ranks stay below that of `x`, no router comes twice, and
      with enough fuel the packet stops at the end. */
  ghost predicate Falls(n: Net, t: Tables, dst: Word, k: Key, x: Word, fuel: nat, p: seq<Word>) {
    && p != [] && p[0] == x && (forall i | 0 <= i < |p| :: p[i] in n.links)
    && (forall i | 0 < i < |p| :: Rank(n, t, dst, k, p[i]) < Rank(n, t, dst, k, x))
    && Distinct(p) && (Rank(n, t, dst, k, x) <= fuel ==> Next(n, t, p[|p| - 1], dst) == None)
  }

  lemma FallsFurther(n: Net, t: Tables, dst: Word, k: Key, x: Word, y: Word, fuel: nat, q: seq<Word>)
    requires x in n.links && Rank(n, t, dst, k, y) < Rank(n, t, dst, k, x) && Falls(n, t, dst, k, y, fuel, q)
    ensures Falls(n, t, dst, k, x, fuel + 1, [x] + q)
  {
    hide Rank, Next;
    var p := [x] + q;
    forall i | 0 < i < |p|
      ensures p[i] in n.links && Rank(n, t, dst, k, p[i]) < Rank(n, t, dst, k, x)
    {
      assert p[i] == q[i - 1];
    }
    forall i, j | 0 <= i < j < |p|
      ensures p[i] != p[j]
    {
      assert p[j] == q[j - 1] && (0 < i ==> p[i] == q[i - 1]);
    }
  }

  /** Ranks fall along every trace. */
  lemma {:induction false} TraceFalls(n: Net, t: Tables, dst: Word, k: Key, x: Word, fuel: nat)
    requires Converged(n, t) && Top(n, dst, k) && NoBounce(n, dst) && x in n.links
    ensures Falls(n, t, dst, k, x, fuel, Trace(n, t, x, dst, fuel))
    decreases fuel
  {
    hide Converged, Top, NoBounce;
    match Next(n, t, x, dst)
    case None =>
    case Some(y) =>
      RankFalls(n, t, dst, k, x, y);
      if fuel > 0 {
        hide Falls, Rank, Next;
        TraceFalls(n, t, dst, k, y, fuel - 1);
        FallsFurther(n, t, dst, k, x, y, fuel - 1, Trace(n, t, y, dst, fuel - 1));
      }
  }

  lemma StopsAtOnce(n: Net, t: Tables, dst: Word, x: Word, fuel: nat)
    requires Converged(n, t) && x in n.links && forall k :: !Top(n, dst, k)
    ensures Trace(n, t, x, dst, fuel) == [x] && Next(n, t, x, dst) == None
  {
    hide Converged, Mine, Best, IsDistance, Top;
    TableOf(n, t, x);
    if Next(n, t, x, dst) != None {
      NoTopNoEntry(n, t, dst, x);
    }
  }

  lemma NoTopNoEntry(n: Net, t: Tables, dst: Word, x: Word)
    requires Converged(n, t) && x in n.links && x in t && Best(t[x], dst).Some?
    ensures exists k :: Top(n, dst, k)
  {
    var e := Best(t[x], dst).value;
    hide Converged, Best, Top, Originates, MatchesKey;
    ChoiceIsLongestKnown(n, t, x, dst, e);
    var r :| Visible(n, x, r, KeyOf(e));
    var k := TopExists(n, dst, r, KeyOf(e));
  }

  lemma NoBounceNoLoop(n: Net, t: Tables, dst: Word)
    requires Converged(n, t) && NoBounce(n, dst)
    ensures NeverLoops(n, t, dst)
  {
    hide Converged, NoBounce, Top, Trace;
    forall x, fuel: nat | x in n.links
      ensures Distinct(Trace(n, t, x, dst, fuel))
    {
      if k :| Top(n, dst, k) {
        TraceFalls(n, t, dst, k, x, fuel);
      } else {
        StopsAtOnce(n, t, dst, x, fuel);
      }
    }
  }

  lemma LoopNeedsBounce(n: Net, t: Tables, dst: Word)
    requires Converged(n, t) && !NeverLoops(n, t, dst)
    ensures !NoBounce(n, dst)
  {
    hide Converged, NoBounce, NeverLoops;
    if NoBounce(n, dst) {
      NoBounceNoLoop(n, t, dst);
    }
  }

  /** Without a bounce every packet comes to rest: at the router it is for, on a local subnet with the key
      chosen, at a router whose static route has the longest key, or, when no router originates a matching
      key, where it started. */
  lemma ComesToRest(n: Net, t: Tables, dst: Word, k: Key, x: Word) returns (fuel: nat)
    requires Converged(n, t) && NoBounce(n, dst) && Top(n, dst, k) && x in n.links
    ensures var p := Trace(n, t, x, dst, fuel);
            && p != [] && Distinct(p) && p[|p| - 1] in n.links
            && (Mine(n, p[|p| - 1], dst) || AtRest(n, t, p[|p| - 1], dst, k))
  {
    fuel := Rank(n, t, dst, k, x);
    TraceFalls(n, t, dst, k, x, fuel);
    var p := Trace(n, t, x, dst, fuel);
    hide Converged, NoBounce, Top, Trace, Next, Mine, StaticOnly, Best;
    if !Mine(n, p[|p| - 1], dst) {
      WhereItEnds(n, t, p[|p| - 1], dst);
    }
  }

  /** The packet leaves on a subnet of router `z`, or by a static route of its with the longest key. */
  ghost predicate AtRest(n: Net, t: Tables, z: Word, dst: Word, k: Key) {
    && z in t && z in n.own && z in n.statics && z in n.ifaces
    && match Best(t[z], dst)
       case Some(e) => e.numHops == 0 && exists s | s in n.own[z] ::
                       HasKey(e, s) && SubnetIface(n.ifaces[z], s.prefix) == Some(e.iface)
       case None => StaticOnly(n, z, k) && exists s | s in n.statics[z] :: Key(s.prefix, s.mask) == k
  }

  // ---- with a bounce ----

  /** Entry `e` follows key `k` by way of `y`. */
  ghost predicate Goes(n: Net, x: Word, k: Key, y: Word, e: Entry) {
    x in n.ifaces && KeyOf(e) == k && 0 < e.numHops && (e.nextHop, e.iface) == HopVia(n.ifaces[x], y)
  }

  /** Tables in which router `x` follows key `k` by way of `y`. */
  lemma Redirect(n: Net, t: Tables, x: Word, k: Key, y: Word) returns (u: Tables)
    requires Converged(n, t) && x in n.links && MayHop(n, x, k, y)
    ensures Converged(n, u) && (forall z | z != x :: z in u <==> z in t)
            && (forall z | z in t && z != x :: u[z] == t[z])
    ensures x in u && exists e | e in u[x] :: Goes(n, x, k, y, e)
  {
    hide TableCorrect, Converged, MayHop;
    TableOf(n, t, x);
    var s := RedirectTable(n, t, x, k, y);
    StillConverged(n, t, x, s);
    u := t[x := s];
  }

  lemma RedirectTable(n: Net, t: Tables, x: Word, k: Key, y: Word) returns (s: seq<Entry>)
    requires Converged(n, t) && x in n.links && MayHop(n, x, k, y) && SameRouters(n)
    ensures TableCorrect(n.links, x, View(n.own, n.statics, x), n.ifaces[x], Self, s)
    ensures exists e | e in s :: Goes(n, x, k, y, e)
  {
    hide Converged, TableCorrect, MayHop, Goes, KeyOf;
    TableOf(n, t, x);
    var i, e := RedirectEntry(n, t, x, k, y);
    s := t[x][i := e];
    StillRight(n.links, x, View(n.own, n.statics, x), n.ifaces[x], t[x], i, e);
    assert s[i] == e;
  }

  lemma RedirectEntry(n: Net, t: Tables, x: Word, k: Key, y: Word) returns (i: nat, e: Entry)
    requires Converged(n, t) && x in n.links && MayHop(n, x, k, y) && SameRouters(n)
    ensures x in t && i < |t[x]| && KeyOf(t[x][i]) == KeyOf(e) && t[x][i].numHops == e.numHops
    ensures Goes(n, x, k, y, e) && Genuine<Word>(n.links, x, View(n.own, n.statics, x), n.ifaces[x], Self, e)
  {
    var r, d :| 0 < d && Nearest(n, x, k, r, d) && IsDistance(n.links, y, r, d - 1);
    assert y in n.links[x];
    hide Converged, IsDistance, HopVia, Nearest, MayHop, View, Genuine;
    NearestIsVisible(n, x, k, r, d);
    var c, f := EntryFor(n, t, x, r, k);
    SameHops(n, t, x, c, r, d);
    e := Entry(k.prefix, k.mask, HopVia(n.ifaces[x], y).0, HopVia(n.ifaces[x], y).1, d);
    NewEntryGenuine(n, x, e, r, d, y);
    i :| 0 <= i < |t[x]| && t[x][i] == c;
  }

  lemma NearestIsVisible(n: Net, x: Word, k: Key, r: Word, d: nat)
    requires Nearest(n, x, k, r, d)
    ensures Visible(n, x, r, k)
  {
  }

  lemma SameHops(n: Net, t: Tables, x: Word, c: Entry, r: Word, d: nat)
    requires Converged(n, t) && x in n.links && x in t && c in t[x] && Nearest(n, x, KeyOf(c), r, d)
    ensures c.numHops == d
  {
    hide Converged, IsDistance;
    var q := EntryVisible(n, t, x, c);
  }

  lemma StillConverged(n: Net, t: Tables, x: Word, s: seq<Entry>)
    requires Converged(n, t) && x in n.links
    requires TableCorrect(n.links, x, View(n.own, n.statics, x), n.ifaces[x], Self, s)
    ensures Converged(n, t[x := s])
  {
    hide TableCorrect, HeardFrom;
  }

  /** Exchanging an entry for another at the same distance leaves the table right. */
  lemma StillRight(g: Graph<Word>, x: Word, v: map<Word, seq<Route>>, ifaces: seq<Iface>, t: seq<Entry>, i: nat,
            e: Entry)
    requires TableCorrect(g, x, v, ifaces, Self, t) && Genuine(g, x, v, ifaces, Self, e)
    requires i < |t| && KeyOf(t[i]) == KeyOf(e) && t[i].numHops == e.numHops
    ensures TableCorrect(g, x, v, ifaces, Self, t[i := e])
  {
    hide Genuine, Covered, KeyOf;
    var s := t[i := e];
    forall f | f in s
      ensures Genuine<Word>(g, x, v, ifaces, Self, f)
    {
      assert f == e || f in t;
    }
    forall q, a | q in v && a in v[q]
      ensures Covered(g, x, s, q, a)
    {
      StillCovered(g, x, t, i, e, q, a);
    }
    SameKeysDistinct(t, i, e);
  }

  lemma NewEntryGenuine(n: Net, x: Word, e: Entry, r: Word, d: nat, y: Word)
    requires SameRouters(n) && x in n.links && x in n.ifaces && 0 < d == e.numHops
    requires Nearest(n, x, KeyOf(e), r, d) && y in n.links[x] && IsDistance(n.links, y, r, d - 1)
    requires (e.nextHop, e.iface) == HopVia(n.ifaces[x], y)
    ensures Genuine<Word>(n.links, x, View(n.own, n.statics, x), n.ifaces[x], Self, e)
  {
    ViewIsVisible(n, x, r, KeyOf(e));
    ZeroDistance(n.links, x, r, d);
    var v := View(n.own, n.statics, x);
    var s: Route :| s in v[r] && Key(s.prefix, s.mask) == KeyOf(e);
    hide IsDistance, Visible, HopVia;
    assert FirstHop<Word>(n.links, x, n.ifaces[x], Self, e, r, y);
    assert LeadsTo<Word>(n.links, x, n.ifaces[x], Self, e, r, s);
  }

  lemma StillCovered(g: Graph<Word>, x: Word, t: seq<Entry>, i: nat, e: Entry, q: Word, a: Route)
    requires i < |t| && KeyOf(t[i]) == KeyOf(e) && t[i].numHops == e.numHops && Covered(g, x, t, q, a)
    ensures Covered(g, x, t[i := e], q, a)
  {
    hide IsDistance;
    var c :| c in t && HasKey(c, a) && NoFarther(g, x, c, q);
    var j :| 0 <= j < |t| && t[j] == c;
    var f := t[i := e][j];
    assert f in t[i := e] && HasKey(f, a) && NoFarther(g, x, f, q);
  }

  lemma SameKeysDistinct(t: seq<Entry>, i: nat, e: Entry)
    requires DistinctKeys(t) && i < |t| && KeyOf(t[i]) == KeyOf(e)
    ensures DistinctKeys(t[i := e])
  {
    var s := t[i := e];
    assert forall j | 0 <= j < |t| :: KeyOf(s[j]) == KeyOf(t[j]);
    forall j, l | 0 <= j < l < |s|
      ensures !SameKey(s[j], s[l])
    {
      assert !SameKey(t[j], t[l]);
    }
  }

  lemma GoesThere(n: Net, t: Tables, x: Word, dst: Word, c: Key, y: Word)
    requires Converged(n, t) && x in n.links && y in n.links[x] && LongestKnown(n, x, dst, c) && !Mine(n, x, dst)
    requires x in t && exists e | e in t[x] :: Goes(n, x, c, y, e)
    ensures Next(n, t, x, dst) == Some(y)
  {
    TableOf(n, t, x);
    hide Converged, LongestKnown, Mine, TableCorrect, Best;
    var e :| e in t[x] && Goes(n, x, c, y, e);
    var f := ChoiceIsLongest(n, t, x, dst, c);
    KeyIsUnique(n, t, x, e, f);
    assert HeardFrom(n, x, y);
  }

  /** The router that gets the packet may send it back. */
  lemma MaySendBack(n: Net, k: Key, c: Key, x: Word, y: Word)
    requires TwoWay(n) && StaticOnly(n, x, k) && MayHop(n, x, c, y) && !Holds(n, y, k)
    ensures y in n.links && x in n.links[y] && x != y && MayHop(n, y, k, x)
  {
    var r, d :| 0 < d && Nearest(n, x, c, r, d) && IsDistance(n.links, y, r, d - 1);
    CloserIsOther(n.links, x, y, r, d);
    Neighbour(n.links, y, x);
    Stay(n.links, x);
    assert IsDistance(n.links, x, x, 0);
    assert Visible(n, y, x, k);
    forall q, e: nat | Visible(n, y, q, k) && IsDistance(n.links, y, q, e)
      ensures 1 <= e
    {
      ZeroDistance(n.links, y, q, e);
    }
    assert Nearest(n, y, k, x, 1);
  }

  /** Given a bounce, right tables exist in which the packet goes to and fro. */
  lemma BounceLoops(n: Net, t: Tables, dst: Word, k: Key, c: Key, x: Word, y: Word) returns (u: Tables)
    requires Converged(n, t) && TwoWay(n) && Bounce(n, dst, k, c, x, y)
    ensures Converged(n, u) && Next(n, u, x, dst) == Some(y) && Next(n, u, y, dst) == Some(x)
  {
    assert x in n.links && y in n.links[x];
    MaySendBack(n, k, c, x, y);
    hide Converged, Mine, MayHop, Top, LongestKnown, Holds, Goes, Next, StaticOnly;
    var v := Redirect(n, t, x, c, y);
    u := Redirect(n, v, y, k, x);
    GoesThere(n, u, x, dst, c, y);
    BackerChooses(n, dst, k, x, y);
    GoesThere(n, u, y, dst, k, x);
  }

  lemma BackerChooses(n: Net, dst: Word, k: Key, x: Word, y: Word)
    requires Top(n, dst, k) && StaticOnly(n, x, k) && x != y
    ensures LongestKnown(n, y, dst, k)
  {
    assert Originates(n, x, k);
    hide Originates;
    assert Visible(n, y, x, k);
    TopIsKnown(n, y, dst, k);
  }

  /** To and fro. */
  lemma GoesOn(n: Net, t: Tables, dst: Word, x: Word, y: Word)
    requires Next(n, t, x, dst) == Some(y) && Next(n, t, y, dst) == Some(x)
    ensures Trace(n, t, x, dst, 2) == [x, y, x]
  {
    hide Next;
    assert Trace(n, t, x, dst, 0) == [x];
    assert Trace(n, t, y, dst, 1) == [y, x];
  }

  /** Packets for a destination never loop, whatever right tables the routers of a converged network hold,
      if and only if there is no bounce. Tables that differ only in which of several shortest paths they
      follow are all right, so nothing less decides it. */
  lemma LoopFreeExactly(n: Net, t: Tables, dst: Word)
    requires Converged(n, t) && TwoWay(n)
    ensures NoBounce(n, dst) <==> forall u | Converged(n, u) :: NeverLoops(n, u, dst)
  {
    hide Converged, NeverLoops, Bounce, TwoWay;
    if NoBounce(n, dst) {
      forall u | Converged(n, u)
        ensures NeverLoops(n, u, dst)
      {
        NoBounceNoLoop(n, u, dst);
      }
    } else {
      var k, c, x, y :| Bounce(n, dst, k, c, x, y);
      var u := BounceLoops(n, t, dst, k, c, x, y);
      GoesOn(n, u, dst, x, y);
      BouncerInside(n, dst, k, c, x, y);
      Repeats(n, u, dst, x, y);
    }
  }

  lemma BouncerInside(n: Net, dst: Word, k: Key, c: Key, x: Word, y: Word)
    requires Bounce(n, dst, k, c, x, y)
    ensures x in n.links
  {
  }

  lemma Repeats(n: Net, u: Tables, dst: Word, x: Word, y: Word)
    requires x in n.links && Trace(n, u, x, dst, 2) == [x, y, x]
    ensures !NeverLoops(n, u, dst)
  {
    assert !Distinct([x, y, x]) by {
      assert [x, y, x][0] == [x, y, x][2];
    }
  }

  // ---- loops under any tables ----

  /** A key that only a neighbour is known to have is followed straight to that neighbour. */
  lemma StraightTo(n: Net, t: Tables, x: Word, y: Word, dst: Word, k: Key)
    requires Converged(n, t) && x in n.links && y in n.links[x] && x != y && !Mine(n, x, dst)
    requires LongestKnown(n, x, dst, k) && forall r | Visible(n, x, r, k) :: r == y
    ensures Next(n, t, x, dst) == Some(y)
  {
    Neighbour(n.links, x, y);
    hide Converged, IsDistance, Mine, Best, LongestKnown, Visible, Next;
    var e := ChoiceIsLongest(n, t, x, dst, k);
    var r := EntryVisible(n, t, x, e);
    NearestIsVisible(n, x, k, r, e.numHops);
    DistancesAgree(n.links, x, y, 1, e.numHops);
    var z := NextIs(n, t, x, dst, e);
    var f := NextMayHop(n, t, x, dst, z);
    var q, d := HopOf(n, t, x, e, z);
    NearestIsVisible(n, x, k, q, d);
    ZeroDistance(n.links, z, q, 0);
  }

  lemma {:induction false} GoesOnForever(n: Net, t: Tables, dst: Word, x: Word, y: Word, fuel: nat)
    requires Next(n, t, x, dst) == Some(y) && Next(n, t, y, dst) == Some(x)
    ensures |Trace(n, t, x, dst, fuel)| == fuel + 1
    decreases fuel
  {
    hide Next;
    if fuel > 0 {
      GoesOnForever(n, t, dst, y, x, fuel - 1);
    }
  }

  /** Two neighbouring gateways, the only routers with a static route for the longest key: packets go to and
      fro between them and never reach either static route. */
  lemma TwoGatewaysLoop(n: Net, t: Tables, a: Word, b: Word, dst: Word, k: Key, fuel: nat)
    requires Converged(n, t) && a in n.links && b in n.links[a] && b in n.links && a in n.links[b] && a != b
    requires Top(n, dst, k) && StaticOnly(n, a, k) && StaticOnly(n, b, k)
    requires forall r | Originates(n, r, k) :: r == a || r == b
    requires !Mine(n, a, dst) && !Mine(n, b, dst)
    ensures Next(n, t, a, dst) == Some(b) && Next(n, t, b, dst) == Some(a) && |Trace(n, t, a, dst, fuel)| == fuel + 1
  {
    hide Converged, Mine, MatchesKey, Next, Trace;
    assert forall r :: (Visible(n, a, r, k) ==> r == b) && (Visible(n, b, r, k) ==> r == a);
    hide Visible, LongestKnown;
    TopIsKnown(n, a, dst, k);
    TopIsKnown(n, b, dst, k);
    StraightTo(n, t, a, b, dst, k);
    StraightTo(n, t, b, a, dst, k);
    GoesOnForever(n, t, dst, a, b, fuel);
  }

  /** A single gateway that learnt a shorter remote key for the destination: it sends the packet off, and
      whichever router gets it sends it back unless it is for that router. */
  lemma OneGatewayLoops(n: Net, t: Tables, x: Word, dst: Word, k: Key, c: Key) returns (y: Word)
    requires Converged(n, t) && TwoWay(n) && x in n.links && !Mine(n, x, dst)
    requires Top(n, dst, k) && StaticOnly(n, x, k) && forall r | Originates(n, r, k) :: r == x
    requires LongestKnown(n, x, dst, c) && !Holds(n, x, c)
    ensures Next(n, t, x, dst) == Some(y) && (!Mine(n, y, dst) ==> Next(n, t, y, dst) == Some(x))
  {
    hide Converged, Mine, IsDistance, MatchesKey;
    var e := ChoiceIsLongest(n, t, x, dst, c);
    var r := EntryVisible(n, t, x, e);
    OwnIsNearest(n, x, c, r, e.numHops);
    hide Nearest, Next, Best;
    y := NextIs(n, t, x, dst, e);
    var f := NextMayHop(n, t, x, dst, y);
    assert !(x == y) && y in n.links && x in n.links[y] by { ReachedOther(n, k, c, x, y); }
    if !Mine(n, y, dst) {
      BackerChooses(n, dst, k, x, y);
      OnlyVisible(n, x, y, k);
      StraightTo(n, t, y, x, dst, k);
    }
  }

  lemma ReachedOther(n: Net, k: Key, c: Key, x: Word, y: Word)
    requires TwoWay(n) && StaticOnly(n, x, k) && MayHop(n, x, c, y) && forall r | Originates(n, r, k) :: r == x
    ensures x != y && y in n.links && x in n.links[y]
  {
    var r, d :| 0 < d && Nearest(n, x, c, r, d) && IsDistance(n.links, y, r, d - 1);
    CloserIsOther(n.links, x, y, r, d);
  }

  lemma OnlyVisible(n: Net, x: Word, y: Word, k: Key)
    requires forall r | Originates(n, r, k) :: r == x
    ensures forall r | Visible(n, y, r, k) :: r == x
  {
  }

  /** A single gateway that knows no other key for the destination never makes a packet loop. */
  lemma LoneGatewayIsFine(n: Net, dst: Word, k: Key, x: Word)
    requires Top(n, dst, k) && forall r | Originates(n, r, k) :: r == x
    requires forall r, j | Visible(n, x, r, j) :: !MatchesKey(j, dst)
    ensures NoBounce(n, dst)
  {
    forall j, c, z, y
      ensures !Bounce(n, dst, j, c, z, y)
    {
      if Bounce(n, dst, j, c, z, y) {
        TopIsOne(n, dst, j, k);
      }
    }
  }

  /** Gateways that follow only subnets of their own where others follow their static routes never make a packet
      loop. */
  lemma HomeIsFine(n: Net, dst: Word)
    requires forall x, k, j | Top(n, dst, k) && StaticOnly(n, x, k) && LongestKnown(n, x, dst, j) :: Holds(n, x, j)
    ensures NoBounce(n, dst)
  {
    hide Top, StaticOnly, LongestKnown, Holds;
    forall k, c, x, y
      ensures !Bounce(n, dst, k, c, x, y)
    {
      if Holds(n, x, c) && MayHop(n, x, c, y) {
        var r, d: nat :| 0 < d && Nearest(n, x, c, r, d) && IsDistance(n.links, y, r, d - 1);
        OwnIsNearest(n, x, c, r, d);
      }
    }
  }

  lemma TopIsOne(n: Net, dst: Word, j: Key, k: Key)
    requires Top(n, dst, j) && Top(n, dst, k)
    ensures j == k
  {
    hide Originates, And;
    var q :| Originates(n, q, j);
    var r :| Originates(n, r, k);
    SameMask(j, k, dst);
  }
}

/** How the databases of a network come to agree: a router that has taken in the LSUs of all others, in any
    order and any number of times, knows exactly who is linked with whom and who holds what. */
module Convergence {
  import opened Database
  import opened Forwarding
  import opened Graphs
  import opened Hellos
  import opened Learning
  import opened Records
  import opened Routers
  import opened Withdrawal

  /** What each router holds itself: its subnets and its static routes. */
  datatype Holdings = Holdings(own: map<Word, seq<Route>>, statics: map<Word, seq<Route>>)

  ghost function Adv(w: Holdings, y: Word): seq<Route>
    requires y in w.own && y in w.statics
  {
    AdvertList(w.own[y], w.statics[y])
  }

  /** A subnet that leads to another router is held at that end too. */
  ghost predicate WayBack(w: Holdings, y: Word, s: Route) {
    s.rid != y && s.rid in w.own && Has(w.own[s.rid], s.(rid := y))
  }

  /** Both ends of every link agree on its subnet. */
  ghost predicate EndsAgree(w: Holdings) {
    && w.own.Keys == w.statics.Keys && 0 !in w.own
    && forall y, s | y in w.own && s in w.own[y] && s.rid != 0 :: WayBack(w, y, s)
  }

  /** In addition, each router advertises subnets that are taken in side by side. */
  ghost predicate Consistent(w: Holdings) {
    EndsAgree(w) && forall y | y in w.own :: Compatible(Adv(w, y))
  }

  ghost function Ends(s: seq<Route>): set<Word> {
    set r | r in s && r.rid != 0 :: r.rid
  }

  /** The links that the subnets make. */
  ghost function LinksFrom(w: Holdings): Graph<Word> {
    map y | y in w.own :: Ends(w.own[y])
  }

  ghost predicate AllAdvertised(s: seq<Route>, advs: seq<Route>) {
    forall r | r in s :: Advertised(r, advs)
  }

  /** Database `t` of router `x` holds nothing that is not so, though routers behind subnets may be missing, and
      all of its own subnets. */
  ghost predicate Truthful(w: Holdings, x: Word, t: Topo) {
    && WellFormed(t) && x in t.links && t.links.Keys <= w.own.Keys && x in w.own && OwnSoFar(SubsOf(t, x), w.own[x])
    && (forall y | y in t.links && y in w.statics :: Fits(SubsOf(t, y), Adv(w, y)))
    && (forall y | y in t.links && y in w.own :: LinksOf(t, y) <= Ends(w.own[y]))
  }

  /** Every router but `host` has its links, or places for them. */
  ghost predicate Places(w: Holdings, t: Topo, host: Word) {
    forall y | y in t.links && y in w.own && y in w.statics && y != host :: HasPlaces(SubsOf(t, y), Adv(w, y))
  }

  /** `u` has everything in `t`. */
  ghost predicate Extends(w: Holdings, t: Topo, u: Topo) {
    && t.links.Keys <= u.links.Keys
    && (forall y: Word :: LinksOf(t, y) <= LinksOf(u, y))
    && (forall y | y in w.own && y in w.statics :: Grown(SubsOf(t, y), SubsOf(u, y), Adv(w, y)))
  }

  /** The database has route `r` of router `y`, and the link it stands for, at both ends. */
  ghost predicate KnowsRoute(t: Topo, y: Word, r: Route) {
    && y in t.links && Has(SubsOf(t, y), r)
    && (r.rid != 0 ==>
          r.rid in LinksOf(t, y) && y in LinksOf(t, r.rid) && Has(SubsOf(t, r.rid), r.(rid := y)))
  }

  /** The database has everything that router `y` advertises. */
  ghost predicate Knows(w: Holdings, t: Topo, y: Word)
    requires y in w.own && y in w.statics
  {
    y in t.links && forall r | r in Adv(w, y) :: KnowsRoute(t, y, r)
  }

  // ---- what is advertised ----

  lemma SameHas(s: seq<Route>, a: Route, b: Route)
    requires SameSubnet(a, b)
    ensures Has(s, a) == Has(s, b)
  {
  }

  lemma HasByMember(s: seq<Route>, r: Route, q: Route)
    requires q in s && SameSubnet(q, r)
    ensures Has(s, r)
  {
    var i :| 0 <= i < |s| && s[i] == q;
    assert SameSubnet(s[i], r);
  }

  /** A subnet of an advertisement list that leads to a router is one of the advertiser's own. */
  lemma LeadingIsOwn(w: Holdings, y: Word, r: Route) returns (s: Route)
    requires y in w.own && y in w.statics && Advertised(r, Adv(w, y)) && r.rid != 0
    ensures s in w.own[y] && SameSubnet(r, s)
  {
    AdvertListIsExact(w.own[y], w.statics[y], r);
    var k :| 0 <= k < |w.own[y]| && SameSubnet(r, w.own[y][k]);
    s := w.own[y][k];
  }

  lemma OwnIsAdvertised(w: Holdings, y: Word, s: Route)
    requires y in w.own && y in w.statics && s in w.own[y]
    ensures Advertised(s, Adv(w, y))
  {
    var k :| 0 <= k < |w.own[y]| && w.own[y][k] == s;
    assert SameSubnet(s, w.own[y][k]);
    AdvertListIsExact(w.own[y], w.statics[y], s);
  }

  /** The other end of an advertised link. */
  lemma FarEnd(w: Holdings, y: Word, r: Route) returns (back: Route)
    requires EndsAgree(w) && y in w.own && Advertised(r, Adv(w, y)) && r.rid != 0
    ensures r.rid in w.own && r.rid != y && r.rid in Ends(w.own[y]) && y in Ends(w.own[r.rid])
    ensures back in Adv(w, r.rid) && SameSubnet(back, r.(rid := y))
  {
    var s := LeadingIsOwn(w, y, r);
    assert WayBack(w, y, s);
    SameHas(w.own[r.rid], s.(rid := y), r.(rid := y));
    var i := FirstSame(w.own[r.rid], r.(rid := y)).value;
    var b := w.own[r.rid][i];
    assert b in w.own[r.rid] && b.rid == y;
    OwnIsAdvertised(w, r.rid, b);
    back := AdvertisedAs(b, Adv(w, r.rid));
  }

  lemma OwnAdvertised(w: Holdings, x: Word)
    requires w.own.Keys == w.statics.Keys && x in w.own
    ensures AdvertisesOwn(w.own[x], Adv(w, x))
  {
    hide AdvertList;
    forall r | r in w.own[x]
      ensures Advertised(r, Adv(w, x))
    {
      OwnIsAdvertised(w, x, r);
    }
    forall a | a in Adv(w, x) && a.rid != 0
      ensures Has(w.own[x], a)
    {
      SelfAdvertised(a, Adv(w, x));
      var s := LeadingIsOwn(w, x, a);
      HasByMember(w.own[x], a, s);
    }
  }

  // ---- one route ----

  lemma ExtendsSelf(w: Holdings, t: Topo)
    ensures Extends(w, t, t)
  {
  }

  lemma ExtendsFurther(w: Holdings, t: Topo, u: Topo, v: Topo)
    requires Extends(w, t, u) && Extends(w, u, v)
    ensures Extends(w, t, v)
  {
    hide AdvertList;
    forall y: Word
      ensures LinksOf(t, y) <= LinksOf(v, y)
    {
      assert LinksOf(t, y) <= LinksOf(u, y) <= LinksOf(v, y);
    }
    forall y | y in w.own && y in w.statics
      ensures Grown(SubsOf(t, y), SubsOf(v, y), Adv(w, y))
    {
      GrownFurther(SubsOf(t, y), SubsOf(u, y), SubsOf(v, y), Adv(w, y));
    }
  }

  lemma GrownSelf(s: seq<Route>, advs: seq<Route>)
    ensures Grown(s, s, advs)
  {
  }

  /** A database that differs from a truthful one in one router's subnets. */
  lemma TruthfulSubs(w: Holdings, x: Word, t: Topo, y: Word, s: seq<Route>, host: Word)
    requires Consistent(w) && Truthful(w, x, t) && Places(w, t, host) && y in t.links && y in w.own
    requires Fits(s, Adv(w, y)) && Grown(SubsOf(t, y), s, Adv(w, y)) && (y == x ==> OwnSoFar(s, w.own[x]))
    requires y != host ==> HasPlaces(s, Adv(w, y))
    ensures var u := SetSubs(t, y, s); Truthful(w, x, u) && Places(w, u, host) && Extends(w, t, u)
  {
    hide Fits, HasPlaces, Grown, OwnSoFar, Ends, AdvertList;
    var u := SetSubs(t, y, s);
    assert forall z: Word :: LinksOf(u, z) == LinksOf(t, z) && SubsOf(u, z) == if z == y then s else SubsOf(t, z);
    assert u.links == t.links && u.subnets.Keys == t.subnets.Keys;
    forall z | z in w.own && z in w.statics
      ensures Grown(SubsOf(t, z), SubsOf(u, z), Adv(w, z))
    {
      GrownSelf(SubsOf(t, z), Adv(w, z));
    }
  }

  lemma NoneFits(advs: seq<Route>)
    ensures Fits([], advs) && HasPlaces([], advs)
  {
  }

  /** A database that differs from a truthful one in routers without subnets and links of the network. */
  lemma TruthfulLinks(w: Holdings, x: Word, t: Topo, u: Topo, host: Word)
    requires Truthful(w, x, t) && Places(w, t, host) && WellFormed(u) && t.links.Keys <= u.links.Keys <= w.own.Keys
    requires forall y: Word :: SubsOf(u, y) == SubsOf(t, y) && LinksOf(t, y) <= LinksOf(u, y)
    requires forall y | y in u.links && y in w.own :: LinksOf(u, y) <= Ends(w.own[y])
    requires forall y | y in u.links && y !in t.links :: SubsOf(u, y) == []
    ensures Truthful(w, x, u) && Places(w, u, host) && Extends(w, t, u)
  {
    hide Fits, HasPlaces, Grown, OwnSoFar, Ends, AdvertList, WellFormed, LinksOf, SubsOf;
    forall y | y in w.own && y in w.statics
      ensures Grown(SubsOf(t, y), SubsOf(u, y), Adv(w, y))
      ensures Fits([], Adv(w, y)) && HasPlaces([], Adv(w, y))
    {
      GrownSelf(SubsOf(t, y), Adv(w, y));
      NoneFits(Adv(w, y));
    }
  }

  lemma TruthfulAdded(w: Holdings, x: Word, t: Topo, z: Word, host: Word)
    requires Truthful(w, x, t) && Places(w, t, host) && z in w.own
    ensures var u := Added(t, z); Truthful(w, x, u) && Places(w, u, host) && Extends(w, t, u) && z in u.links
  {
    var u := Added(t, z);
    AddedGrows(t, z);
    assert forall y: Word :: SubsOf(u, y) == SubsOf(t, y) && LinksOf(u, y) == LinksOf(t, y);
    assert forall y | y in u.links && y !in t.links :: SubsOf(u, y) == [] && LinksOf(u, y) == {};
    hide Fits, HasPlaces, Grown, OwnSoFar, Ends, AdvertList, SubsOf, Places, Extends;
    TruthfulLinks(w, x, t, u, host);
  }

  lemma TruthfulLink(w: Holdings, x: Word, t: Topo, a: Word, b: Word, host: Word)
    requires Truthful(w, x, t) && Places(w, t, host)
    requires a in t.links && b in t.links && a in w.own && b in Ends(w.own[a])
    ensures var u := SetLinks(t, a, LinksOf(t, a) + {b});
            Truthful(w, x, u) && Places(w, u, host) && Extends(w, t, u) && b in LinksOf(u, a)
  {
    var u := SetLinks(t, a, LinksOf(t, a) + {b});
    assert WellFormed(u) && u.links.Keys == t.links.Keys;
    assert forall y: Word :: SubsOf(u, y) == SubsOf(t, y);
    assert forall y: Word :: LinksOf(u, y) == if y == a then LinksOf(t, a) + {b} else LinksOf(t, y);
    hide Fits, HasPlaces, Grown, OwnSoFar, Ends, AdvertList, WellFormed, SetLinks, LinksOf, SubsOf, Places, Extends;
    TruthfulLinks(w, x, t, u, host);
  }

  lemma TruthfulLinked(w: Holdings, x: Word, t: Topo, a: Word, b: Word, host: Word)
    requires Consistent(w) && Truthful(w, x, t) && Places(w, t, host) && a in t.links && b in t.links && a != b
    requires a in w.own && b in w.own && b in Ends(w.own[a]) && a in Ends(w.own[b])
    ensures var u := Linked(t, a, b);
            && Truthful(w, x, u) && Places(w, u, host) && Extends(w, t, u) && b in LinksOf(u, a) && a in LinksOf(u, b)
  {
    hide Ends, Truthful, Places, Consistent, Extends;
    var u := SetLinks(t, a, LinksOf(t, a) + {b});
    TruthfulLink(w, x, t, a, b, host);
    TruthfulLink(w, x, u, b, a, host);
    ExtendsFurther(w, t, u, Linked(t, a, b));
  }

  lemma StillHas(w: Holdings, t: Topo, u: Topo, y: Word, r: Route)
    requires w.own.Keys == w.statics.Keys && y in w.own && Advertised(r, Adv(w, y))
    requires Has(SubsOf(t, y), r) && Extends(w, t, u)
    ensures Has(SubsOf(u, y), r)
  {
    HasKept(SubsOf(t, y), SubsOf(u, y), Adv(w, y), r);
  }

  lemma StillKnown(w: Holdings, t: Topo, u: Topo, y: Word, r: Route)
    requires EndsAgree(w) && y in w.own && r in Adv(w, y) && KnowsRoute(t, y, r) && Extends(w, t, u)
    ensures KnowsRoute(u, y, r)
  {
    hide Has, AdvertList;
    SelfAdvertised(r, Adv(w, y));
    StillHas(w, t, u, y, r);
    if r.rid != 0 {
      var back := FarEnd(w, y, r);
      SelfAdvertised(back, Adv(w, r.rid));
      AdvertisedKept(back, r.(rid := y), Adv(w, r.rid));
      StillHas(w, t, u, r.rid, r.(rid := y));
      assert LinksOf(t, y) <= LinksOf(u, y) && LinksOf(t, r.rid) <= LinksOf(u, r.rid);
    }
  }

  /** Taking in an advertised route of another router adds what it says and nothing else. */
  lemma TakesOne(w: Holdings, x: Word, t: Topo, y: Word, r: Route)
    requires Consistent(w) && Truthful(w, x, t) && Places(w, t, y) && y in t.links && y != x && y in w.own
    requires r in Adv(w, y)
    ensures var u := Took(t, y, r);
            Truthful(w, x, u) && Places(w, u, y) && Extends(w, t, u) && KnowsRoute(u, y, r)
  {
    SelfAdvertised(r, Adv(w, y));
    TakesAtHost(w, x, t, y, r);
    hide Truthful, Places, Extends, Clashes, Learned, Has, AdvertList, Advertised;
    var u := LearnedAt(t, y, r);
    if r.rid != 0 {
      var back := FarEnd(w, y, r);
      hide Consistent, EndsAgree;
      TakesFarEnd(w, x, u, y, r, back);
      ExtendsFurther(w, t, u, Took(t, y, r));
    }
  }

  lemma TakesAtHost(w: Holdings, x: Word, t: Topo, y: Word, r: Route)
    requires Consistent(w) && Truthful(w, x, t) && Places(w, t, y) && y in t.links && y != x && y in w.own
    requires Advertised(r, Adv(w, y))
    ensures var u := LearnedAt(t, y, r);
            && !Clashes(SubsOf(t, y), r) && Truthful(w, x, u) && Places(w, u, y) && Extends(w, t, u)
            && y in u.links && Has(SubsOf(u, y), r)
  {
    TakenIn(SubsOf(t, y), Adv(w, y), r);
    hide Clashes, Has, Advertised, AdvertList, Fits, Grown, Learned, Places;
    TruthfulSubs(w, x, t, y, Learned(SubsOf(t, y), r), y);
  }

  /** The subnets of the router at the far end after it is given the way back. */
  lemma FarEndLearns(w: Holdings, x: Word, l: Topo, z: Word, back: Route, host: Word)
    requires Consistent(w) && Truthful(w, x, l) && Places(w, l, host) && z in l.links && z in w.own && z != host
    requires back in Adv(w, z) && back.rid != 0
    ensures var s := SubsOf(l, z); var v := SetSubs(l, z, Learned(s, back));
            && !ClashesBack(s, back) && LearnedBack(s, back) == Learned(s, back)
            && Truthful(w, x, v) && Places(w, v, host) && Extends(w, l, v) && Has(SubsOf(v, z), back)
  {
    var s := SubsOf(l, z);
    TakenBack(s, Adv(w, z), back);
    TakenIn(s, Adv(w, z), back);
    if z == x {
      OwnAdvertised(w, x);
      OwnTakenBack(s, w.own[x], Adv(w, x), back);
    }
    hide ClashesBack, Has, Advertised, AdvertList, Fits, Grown, Learned, LearnedBack, HasPlaces, OwnSoFar;
    TruthfulSubs(w, x, l, z, Learned(s, back), host);
  }

  lemma TakesFarEnd(w: Holdings, x: Word, u: Topo, y: Word, r: Route, back: Route)
    requires Consistent(w) && Truthful(w, x, u) && Places(w, u, y) && y in u.links && y in w.own && r.rid != 0
    requires Has(SubsOf(u, y), r) && r in Adv(w, y)
    requires r.rid in w.own && r.rid != y && r.rid in Ends(w.own[y]) && y in Ends(w.own[r.rid])
    requires back in Adv(w, r.rid) && SameSubnet(back, r.(rid := y))
    ensures var v := LearnedBackAt(Connected(u, y, r.rid), r.rid, r.(rid := y));
            Truthful(w, x, v) && Places(w, v, y) && Extends(w, u, v) && KnowsRoute(v, y, r)
  {
    var z := r.rid;
    NextHopsUnset(w, y, r);
    NextHopsUnset(w, z, back);
    assert back == r.(rid := y);
    SelfAdvertised(r, Adv(w, y));
    hide Truthful, Places, Extends, Advertised, AdvertList, Ends, Has, ClashesBack, Learned, LearnedBack;
    TruthfulAdded(w, x, u, z, y);
    var a := Added(u, z);
    TruthfulLinked(w, x, a, y, z, y);
    var l := Linked(a, y, z);
    ExtendsFurther(w, u, a, l);
    var s := SubsOf(l, z);
    KeepsNode(w, a, l, z);
    FarEndLearns(w, x, l, z, back, y);
    var v := SetSubs(l, z, Learned(s, back));
    assert LearnedBackAt(l, z, back) == v;
    ExtendsFurther(w, u, l, v);
    KnowsAfter(w, u, v, l, y, r);
  }

  /** The next hop of an advertisement is unset. */
  lemma NextHopsUnset(w: Holdings, y: Word, r: Route)
    requires y in w.own && y in w.statics && r in Adv(w, y)
    ensures r.nextHop == 0
  {
    var k :| 0 <= k < |Adv(w, y)| && Adv(w, y)[k] == r;
  }

  lemma KnowsAfter(w: Holdings, u: Topo, v: Topo, l: Topo, y: Word, r: Route)
    requires w.own.Keys == w.statics.Keys && y in w.own && Advertised(r, Adv(w, y))
    requires Extends(w, u, v) && Extends(w, l, v) && y in u.links && Has(SubsOf(u, y), r)
    requires r.rid in LinksOf(l, y) && y in LinksOf(l, r.rid) && Has(SubsOf(v, r.rid), r.(rid := y))
    ensures KnowsRoute(v, y, r)
  {
    StillHas(w, u, v, y, r);
    assert LinksOf(l, y) <= LinksOf(v, y) && LinksOf(l, r.rid) <= LinksOf(v, r.rid);
  }

  lemma KeepsNode(w: Holdings, t: Topo, u: Topo, y: Word)
    requires Extends(w, t, u) && y in t.links
    ensures y in u.links
  {
  }

  // ---- one LSU ----

  /** The database is as truthful as `t`, has everything in it, and knows all these routes of router `y`. */
  ghost predicate Taught(w: Holdings, x: Word, t: Topo, u: Topo, y: Word, routes: seq<Route>) {
    && Truthful(w, x, u) && Places(w, u, y) && Extends(w, t, u)
    && forall r | r in routes :: KnowsRoute(u, y, r)
  }

  lemma TakesNext(w: Holdings, x: Word, t: Topo, u: Topo, y: Word, routes: seq<Route>, r: Route)
    requires Consistent(w) && y in t.links && y != x && y in w.own && Taught(w, x, t, u, y, routes)
    requires r in Adv(w, y) && forall q | q in routes :: q in Adv(w, y)
    ensures Taught(w, x, t, Took(u, y, r), y, routes + [r])
  {
    var v := Took(u, y, r);
    hide Truthful, Places, Extends, AdvertList, Took, KnowsRoute, Compatible, WayBack;
    KeepsNode(w, t, u, y);
    TakesOne(w, x, u, y, r);
    ExtendsFurther(w, t, u, v);
    forall q | q in routes
      ensures KnowsRoute(v, y, q)
    {
      StillKnown(w, u, v, y, q);
    }
  }

  lemma TakesNone(w: Holdings, x: Word, t: Topo, y: Word)
    requires Truthful(w, x, t) && Places(w, t, y)
    ensures Taught(w, x, t, TookAll(t, y, []), y, [])
  {
    ExtendsSelf(w, t);
  }

  lemma {:induction false} TakesAll(w: Holdings, x: Word, t: Topo, y: Word, routes: seq<Route>)
    requires Consistent(w) && Truthful(w, x, t) && Places(w, t, y) && y in t.links && y != x && y in w.own
    requires forall r | r in routes :: r in Adv(w, y)
    ensures Taught(w, x, t, TookAll(t, y, routes), y, routes)
  {
    hide Taught, Truthful, Places, AdvertList, Took, Compatible, WayBack, WellFormed;
    if routes == [] {
      TakesNone(w, x, t, y);
    } else {
      var n := |routes| - 1;
      var u := TookAll(t, y, routes[..n]);
      assert TookAll(t, y, routes) == Took(u, y, routes[n]);
      hide TookAll;
      assert routes[n] in routes && forall r | r in routes[..n] :: r in routes;
      assert routes == routes[..n] + [routes[n]];
      TakesAll(w, x, t, y, routes[..n]);
      TakesNext(w, x, t, u, y, routes[..n], routes[n]);
    }
  }

  lemma {:induction false} NothingToPrune(t: Topo, y: Word, i: nat, advs: seq<Route>)
    requires y in t.links && AllAdvertised(SubsOf(t, y), advs)
    ensures Pruned(t, y, i, advs) == t
    decreases |SubsOf(t, y)| - i
  {
    hide Advertised, WithdrawnAt;
    PrunedAt(t, y, i, advs);
    if i < |SubsOf(t, y)| {
      assert SubsOf(t, y)[i] in SubsOf(t, y);
      NothingToPrune(t, y, i + 1, advs);
    }
  }

  /** After the LSU of another router the database knows everything that router advertises, and still nothing
      false. */
  lemma LsuTeaches(w: Holdings, x: Word, t: Topo, y: Word, pastStart: bool)
    requires Consistent(w) && Truthful(w, x, t) && Places(w, t, x) && y in w.own && y != x
    ensures var u := AfterLsu(t, y, Adv(w, y), pastStart);
            Truthful(w, x, u) && Places(w, u, x) && Extends(w, t, u) && Knows(w, u, y)
  {
    OwnPlaces(w, x, t, y);
    TruthfulAdded(w, x, t, y, y);
    var a := Added(t, y);
    TakesAll(w, x, a, y, Adv(w, y));
    var u := TookAll(a, y, Adv(w, y));
    ExtendsFurther(w, t, a, u);
    KeepsNode(w, a, u, y);
    NothingExpected(SubsOf(u, y), Adv(w, y));
    hide Truthful, Extends, AdvertList, TookAll, Added, HasPlaces, Fits, Advertised;
    NothingToPrune(u, y, 0, Adv(w, y));
  }

  /** A router always has places for its own links. */
  lemma OwnPlaces(w: Holdings, x: Word, t: Topo, host: Word)
    requires Consistent(w) && Truthful(w, x, t) && Places(w, t, x)
    ensures Places(w, t, host)
  {
    OwnAdvertised(w, x);
    OwnHasPlaces(SubsOf(t, x), w.own[x], Adv(w, x));
    hide HasPlaces;
  }

  lemma StillKnows(w: Holdings, t: Topo, u: Topo, y: Word)
    requires EndsAgree(w) && y in w.own && Knows(w, t, y) && Extends(w, t, u)
    ensures Knows(w, u, y)
  {
    KeepsNode(w, t, u, y);
    hide KnowsRoute, Extends, AdvertList;
    forall r | r in Adv(w, y)
      ensures KnowsRoute(u, y, r)
    {
      StillKnown(w, t, u, y, r);
    }
  }

  // ---- one HELLO ----

  /** A HELLO of a router behind this one's subnet, at a time when no neighbour has gone silent. */
  ghost predicate TrueHello(w: Holdings, x: Word, ifs: seq<Iface>, h: Hello, now: int)
    requires x in w.own
  {
    && (forall i, j | 0 <= i < |ifs| && 0 <= j < |ifs[i].neighbors| :: now <= ifs[i].neighbors[j].timeNotValid)
    && forall r | r in w.own[x] && r.prefix == And(h.src, h.mask) && r.mask == h.mask :: r.rid == h.rid
  }

  lemma IdentifiedFits(s: seq<Route>, own: seq<Route>, advs: seq<Route>, h: Hello)
    requires Compatible(advs) && Fits(s, advs) && AdvertisesOwn(own, advs) && OwnSoFar(s, own)
    requires forall r | r in own && r.prefix == And(h.src, h.mask) && r.mask == h.mask :: r.rid == h.rid
    ensures var u := Identified(s, h); Fits(u, advs) && Grown(s, u, advs) && OwnSoFar(u, own)
  {
    match FirstWithPrefix(s, And(h.src, h.mask))
    case None =>
    case Some(i) =>
      if s[i].rid == 0 && s[i].mask == h.mask {
        assert own[i] in own;
        if own[i].rid == 0 {
          assert Identified(s, h) == s;
        } else {
          ExpectedOwn(own[i], s[i], advs);
          AttachFits(s, advs, own[i], i);
        }
      }
  }

  lemma ExpectedOwn(o: Route, r: Route, advs: seq<Route>)
    requires Compatible(advs) && Advertised(o, advs) && o.rid != 0 && r == o.(rid := 0)
    ensures Expected(r, advs) && !Advertised(r, advs)
  {
    var a := AdvertisedAs(o, advs);
    assert Expected(r, advs);
    if Advertised(r, advs) {
      NotBoth(r, advs);
    }
  }

  lemma IdentifyTeaches(w: Holdings, x: Word, t: Topo, h: Hello)
    requires Consistent(w) && Truthful(w, x, t) && Places(w, t, x)
    requires forall r | r in w.own[x] && r.prefix == And(h.src, h.mask) && r.mask == h.mask :: r.rid == h.rid
    ensures var u := SetSubs(t, x, Identified(SubsOf(t, x), h));
            Truthful(w, x, u) && Places(w, u, x) && Extends(w, t, u)
  {
    OwnAdvertised(w, x);
    IdentifiedFits(SubsOf(t, x), w.own[x], Adv(w, x), h);
    hide Identified, Fits, Grown, OwnSoFar, AdvertList, Places, AdvertisesOwn;
    TruthfulSubs(w, x, t, x, Identified(SubsOf(t, x), h), x);
  }

  lemma PassTeaches(w: Holdings, x: Word, t: Topo, f: Iface, h: Hello, now: int, pastStart: bool)
    requires Consistent(w) && Truthful(w, x, t) && Places(w, t, x)
    requires forall j | 0 <= j < |f.neighbors| :: now <= f.neighbors[j].timeNotValid
    requires forall r | r in w.own[x] && r.prefix == And(h.src, h.mask) && r.mask == h.mask :: r.rid == h.rid
    ensures var u := PassedTopo(t, x, f, h, now, pastStart);
            Truthful(w, x, u) && Places(w, u, x) && Extends(w, t, u)
  {
    NobodySwept(t, x, f.neighbors, 0, now);
    IdentifyTeaches(w, x, t, h);
    ExtendsSelf(w, t);
    hide Truthful, Places, Extends, Consistent, SweptTopo, Identified, SetSubs;
  }

  /** Such a HELLO tells a router who is behind its subnet, and nothing false. */
  lemma {:induction false} HelloTeaches(w: Holdings, x: Word, t: Topo, ifs: seq<Iface>, k: nat, h: Hello, now: int,
                                        pastStart: bool)
    requires Consistent(w) && Truthful(w, x, t) && Places(w, t, x) && TrueHello(w, x, ifs, h, now)
    ensures var u := AfterHelloTopo(t, x, ifs, k, h, now, pastStart);
            Truthful(w, x, u) && Places(w, u, x) && Extends(w, t, u)
    decreases |ifs| - k
  {
    assert x in w.own;
    hide Truthful, Places, Extends, Consistent, PassedTopo, AfterHelloTopo;
    AfterHelloTopoAt(t, x, ifs, k, h, now, pastStart);
    if k >= |ifs| {
      ExtendsSelf(w, t);
    } else {
      var u := PassedTopo(t, x, ifs[k], h, now, pastStart);
      PassTeaches(w, x, t, ifs[k], h, now, pastStart);
      if !StopsAt(ifs[k], h) {
        HelloTeaches(w, x, u, ifs, k + 1, h, now, pastStart);
        ExtendsFurther(w, t, u, AfterHelloTopo(u, x, ifs, k + 1, h, now, pastStart));
      }
    }
  }

  // ---- a run ----

  /** What may happen at router `x` while nothing changes around it: LSUs in which other routers advertise what
      they hold, HELLOs from the routers behind its subnets, and checks that find nobody expired. */
  ghost predicate Settled(w: Holdings, x: Word, e: Event)
    requires w.own.Keys == w.statics.Keys && x in w.own
  {
    match e
    case LsuEvent(host, routes, _) => host in w.own && host != x && routes == Adv(w, host)
    case HelloEvent(ifs, h, now, _) => TrueHello(w, x, ifs, h, now)
    case ExpiryEvent(ids) => ids == []
  }

  ghost predicate AllSettled(w: Holdings, x: Word, es: seq<Event>)
    requires w.own.Keys == w.statics.Keys && x in w.own
  {
    forall e | e in es :: Settled(w, x, e)
  }

  lemma EventTeaches(w: Holdings, x: Word, t: Topo, e: Event)
    requires Consistent(w) && Truthful(w, x, t) && Places(w, t, x) && Settled(w, x, e)
    ensures var u := After(t, x, e);
            && Truthful(w, x, u) && Places(w, u, x) && Extends(w, t, u)
            && (e.LsuEvent? ==> Knows(w, u, e.host))
  {
    hide Truthful, Places, Extends, Knows, AfterLsu, AfterHelloTopo, Consistent, TrueHello;
    match e
    case LsuEvent(host, routes, pastStart) =>
      LsuTeaches(w, x, t, host, pastStart);
    case HelloEvent(ifs, h, now, pastStart) =>
      HelloTeaches(w, x, t, ifs, 0, h, now, pastStart);
    case ExpiryEvent(ids) =>
      ExtendsSelf(w, t);
  }

  lemma {:induction false} RunTeaches(w: Holdings, x: Word, t: Topo, es: seq<Event>)
    requires Consistent(w) && Truthful(w, x, t) && Places(w, t, x) && AllSettled(w, x, es)
    ensures var u := AfterAll(t, x, es);
            && Truthful(w, x, u) && Places(w, u, x)
            && forall e | e in es && e.LsuEvent? :: Knows(w, u, e.host)
  {
    if es != [] {
      var n := |es| - 1;
      var u := AfterAll(t, x, es[..n]);
      var e := es[n];
      assert e in es && forall d | d in es[..n] :: d in es;
      assert forall d | d in es :: d in es[..n] || d == e;
      assert forall d | d in es && d.LsuEvent? :: Settled(w, x, d);
      hide Truthful, Places, Extends, Knows, AdvertList, After;
      RunTeaches(w, x, t, es[..n]);
      EventTeaches(w, x, u, e);
      var v := After(u, x, e);
      forall d | d in es && d.LsuEvent?
        ensures Knows(w, v, d.host)
      {
        if d in es[..n] {
          StillKnows(w, u, v, d.host);
        }
      }
    }
  }

  // ---- agreement ----

  /** The database of router `x` is as it should be: the links of the network, its own subnets, and the keys
      that every other router advertises. */
  ghost predicate Agrees(w: Holdings, x: Word, t: Topo)
    requires w.own.Keys == w.statics.Keys
  {
    t.links == LinksFrom(w) && SameHoldings(t.subnets, View(w.own, w.statics, x), x)
  }

  lemma KeysAgree(w: Holdings, x: Word, t: Topo, y: Word)
    requires Consistent(w) && Truthful(w, x, t) && y in w.own && Knows(w, t, y)
    ensures KeysOf(SubsOf(t, y)) == KeysOf(w.own[y] + w.statics[y])
  {
    var s := SubsOf(t, y);
    var advs := Adv(w, y);
    AdvertKeys(w.own[y], w.statics[y]);
    assert forall r | r in advs :: KnowsRoute(t, y, r);
    NothingExpected(s, advs);
    hide Truthful, Consistent, AdvertList, Fits, Compatible, HasPlaces, Knows;
    forall r | r in s
      ensures Key(r.prefix, r.mask) in KeysOf(advs)
    {
      var k :| 0 <= k < |advs| && SameSubnet(r, advs[k]);
      assert advs[k] in advs;
    }
    forall r | r in advs
      ensures Key(r.prefix, r.mask) in KeysOf(s)
    {
      assert s[FirstSame(s, r).value] in s;
    }
  }

  lemma AdvertKeys(own: seq<Route>, statics: seq<Route>)
    ensures KeysOf(AdvertList(own, statics)) == KeysOf(own + statics)
  {
    var (advs, both) := (AdvertList(own, statics), own + statics);
    assert |advs| == |both| && forall k | 0 <= k < |advs| ::
           advs[k].prefix == both[k].prefix && advs[k].mask == both[k].mask;
    forall r | r in advs
      ensures Key(r.prefix, r.mask) in KeysOf(both)
    {
      var k :| 0 <= k < |advs| && advs[k] == r;
      assert both[k] in both;
    }
    forall r | r in both
      ensures Key(r.prefix, r.mask) in KeysOf(advs)
    {
      var k :| 0 <= k < |both| && both[k] == r;
      assert advs[k] in advs;
    }
  }

  /** A router whose database holds nothing false, and has places for the links it lacks, ends with a database that
      agrees with what all routers hold once it has taken in an LSU of each of them, in whatever order and however
      often, with HELLOs in between. Routers it knew nothing of behind its subnets have turned up by then. */
  lemma DatabaseAgrees(w: Holdings, x: Word, t: Topo, es: seq<Event>)
    requires Consistent(w) && Truthful(w, x, t) && Places(w, t, x) && AllSettled(w, x, es)
    requires forall y | y in w.own && y != x :: exists e | e in es :: e.LsuEvent? && e.host == y
    ensures Agrees(w, x, AfterAll(t, x, es))
  {
    RunTeaches(w, x, t, es);
    var u := AfterAll(t, x, es);
    hide AfterAll, Knows, Truthful, Settled, Places, Agrees, Consistent;
    forall y | y in w.own && y != x
      ensures Knows(w, u, y)
    {
      var e :| e in es && e.LsuEvent? && e.host == y;
    }
    KnowingAgrees(w, x, u);
  }

  /** What all the others have told of this router's links. */
  lemma OwnLinkKnown(w: Holdings, x: Word, u: Topo, a: Route)
    requires EndsAgree(w) && x in w.own && a in Adv(w, x) && a.rid != 0
    requires forall y | y in w.own && y != x :: Knows(w, u, y)
    ensures a.rid in LinksOf(u, x) && Has(SubsOf(u, x), a)
  {
    SelfAdvertised(a, Adv(w, x));
    var back := FarEnd(w, x, a);
    assert KnowsRoute(u, a.rid, back);
    SameHas(SubsOf(u, x), back.(rid := x), a.(rid := x));
    NextHopsUnset(w, x, a);
    SameHas(SubsOf(u, x), back.(rid := a.rid), a);
    assert back.rid == x;
  }

  lemma OwnIsComplete(w: Holdings, x: Word, u: Topo)
    requires Consistent(w) && Truthful(w, x, u) && forall y | y in w.own && y != x :: Knows(w, u, y)
    ensures SubsOf(u, x) == w.own[x]
  {
    OwnAdvertised(w, x);
    forall a | a in Adv(w, x) && a.rid != 0
      ensures Has(SubsOf(u, x), a)
    {
      OwnLinkKnown(w, x, u, a);
    }
    hide Knows;
    OwnComplete(SubsOf(u, x), w.own[x], Adv(w, x));
  }

  lemma KnowingAgrees(w: Holdings, x: Word, u: Topo)
    requires Consistent(w) && Truthful(w, x, u) && forall y | y in w.own && y != x :: Knows(w, u, y)
    ensures Agrees(w, x, u)
  {
    OwnIsComplete(w, x, u);
    forall y | y in w.own
      ensures y in u.links && u.links[y] == Ends(w.own[y])
    {
      LinksAgree(w, x, u, y);
    }
    assert u.links == LinksFrom(w);
    var v := View(w.own, w.statics, x);
    forall y | y in u.subnets && y != x
      ensures KeysOf(u.subnets[y]) == KeysOf(v[y])
    {
      KeysAgree(w, x, u, y);
    }
  }

  lemma LinksAgree(w: Holdings, x: Word, u: Topo, y: Word)
    requires Consistent(w) && Truthful(w, x, u) && y in w.own && forall z | z in w.own && z != x :: Knows(w, u, z)
    ensures y in u.links && u.links[y] == Ends(w.own[y])
  {
    hide KnowsRoute, AdvertList, Fits, OwnSoFar;
    forall z | z in Ends(w.own[y])
      ensures z in LinksOf(u, y)
    {
      var s :| s in w.own[y] && s.rid == z && s.rid != 0;
      OwnIsAdvertised(w, y, s);
      var a := AdvertisedAs(s, Adv(w, y));
      if y == x {
        OwnLinkKnown(w, x, u, a);
      } else {
        LinkKnown(w, u, y, a);
      }
    }
  }

  lemma LinkKnown(w: Holdings, u: Topo, y: Word, a: Route)
    requires y in w.own && y in w.statics && Knows(w, u, y) && a in Adv(w, y) && a.rid != 0
    ensures a.rid in LinksOf(u, y)
  {
    assert KnowsRoute(u, y, a);
  }

  /** A router starts with nothing false when its subnets are as set up at start, before any router behind them was
      heard, or as they are in the end, or anything in between. */
  lemma StartsTruthful(w: Holdings, x: Word, subnets: seq<Route>)
    requires Consistent(w) && x in w.own && OwnSoFar(subnets, w.own[x]) && DistinctPrefixes(w.own[x])
    ensures Truthful(w, x, Initially(x, subnets)) && Places(w, Initially(x, subnets), x)
  {
    OwnAdvertised(w, x);
    StartFits(subnets, w.own[x], Adv(w, x));
  }

  // ---- the program's own subnets and static routes ----

  ghost predicate DistinctPrefixes(s: seq<Route>) {
    forall i, j | 0 <= i < j < |s| :: s[i].prefix != s[j].prefix
  }

  lemma StartFits(s: seq<Route>, own: seq<Route>, advs: seq<Route>)
    requires Compatible(advs) && AdvertisesOwn(own, advs) && OwnSoFar(s, own) && DistinctPrefixes(own)
    ensures Fits(s, advs)
  {
    forall i | 0 <= i < |s|
      ensures Advertised(s[i], advs) || (Expected(s[i], advs) && Leading(s, i))
    {
      assert own[i] in own;
      if s[i] != own[i] {
        ExpectedOwn(own[i], s[i], advs);
      }
    }
  }

  /** With one mask on all interfaces, as the program has it, and a subnet of its own on each, what a router
      advertises is taken in side by side exactly when no static route repeats a subnet that leads to a router. A
      host route or a default route never does, whatever subnet it lies on. */
  lemma OneMaskCompatible(own: seq<Route>, statics: seq<Route>, mask: Word)
    requires DistinctPrefixes(own) && forall r | r in own :: r.mask == mask
    ensures Compatible(AdvertList(own, statics)) <==>
            forall r, s | r in own && s in statics && r.prefix == s.prefix && s.mask == mask :: r.rid == 0
  {
    var advs := AdvertList(own, statics);
    assert forall k | 0 <= k < |own| :: advs[k] == Route(own[k].prefix, own[k].mask, 0, own[k].rid);
    assert forall k | |own| <= k < |advs| ::
           advs[k] == Route(statics[k - |own|].prefix, statics[k - |own|].mask, 0, 0);
    hide AdvertList;
    if Compatible(advs) {
      forall r, s | r in own && s in statics && r.prefix == s.prefix && s.mask == mask
        ensures r.rid == 0
      {
        var i :| 0 <= i < |own| && own[i] == r;
        var j :| 0 <= j < |statics| && statics[j] == s;
        assert advs[i] in advs && advs[|own| + j] in advs;
        assert SideBySide(advs[i], advs[|own| + j]);
      }
    }
    if forall r, s | r in own && s in statics && r.prefix == s.prefix && s.mask == mask :: r.rid == 0 {
      forall a, b | a in advs && b in advs
        ensures SideBySide(a, b)
      {
        var i :| 0 <= i < |advs| && advs[i] == a;
        var j :| 0 <= j < |advs| && advs[j] == b;
        SideBySideAt(own, statics, mask, advs, i, j);
        SideBySideAt(own, statics, mask, advs, j, i);
      }
    }
  }

  lemma SideBySideAt(own: seq<Route>, statics: seq<Route>, mask: Word, advs: seq<Route>, i: nat, j: nat)
    requires DistinctPrefixes(own) && forall r | r in own :: r.mask == mask
    requires |advs| == |own| + |statics| && i < |advs| && j < |advs|
    requires forall k | 0 <= k < |own| :: advs[k] == Route(own[k].prefix, own[k].mask, 0, own[k].rid)
    requires forall k | |own| <= k < |advs| ::
               advs[k] == Route(statics[k - |own|].prefix, statics[k - |own|].mask, 0, 0)
    requires forall r, s | r in own && s in statics && r.prefix == s.prefix && s.mask == mask :: r.rid == 0
    ensures i <= j ==> SideBySide(advs[i], advs[j])
  {
    if i < |own| <= j {
      assert own[i] in own && statics[j - |own|] in statics;
    } else if i < j < |own| {
      assert own[i].prefix != own[j].prefix;
    }
  }

  /** The configuration shipped: one mask on all interfaces, and static routes to single hosts and by default only.
      It may have a host route on a subnet of its router. */
  lemma ShippedConsistent(w: Holdings, mask: Word)
    requires EndsAgree(w) && 0 < mask < 0xFFFF_FFFF
    requires forall y | y in w.own :: DistinctPrefixes(w.own[y]) && forall r | r in w.own[y] :: r.mask == mask
    requires forall y, s | y in w.statics && s in w.statics[y] :: s.mask == 0 || s.mask == 0xFFFF_FFFF
    ensures Consistent(w)
  {
    forall y | y in w.own
      ensures Compatible(Adv(w, y))
    {
      OneMaskCompatible(w.own[y], w.statics[y], mask);
    }
  }

  // ---- two routers ----

  /** Routers `a` and `b` on one subnet, each with its own next hop for it and static routes of its own. */
  ghost function Pair(a: Word, b: Word, prefix: Word, mask: Word, hopA: Word, hopB: Word,
                      staticsA: seq<Route>, staticsB: seq<Route>): Holdings {
    Holdings(map[a := [Route(prefix, mask, hopA, b)], b := [Route(prefix, mask, hopB, a)]],
             map[a := staticsA, b := staticsB])
  }

  lemma PairEnds(a: Word, b: Word, prefix: Word, mask: Word, hopA: Word, hopB: Word,
                 staticsA: seq<Route>, staticsB: seq<Route>)
    requires a != b && a != 0 && b != 0
    ensures var w := Pair(a, b, prefix, mask, hopA, hopB, staticsA, staticsB);
            EndsAgree(w) && w.own.Keys == {a, b} && LinksFrom(w) == map[a := {b}, b := {a}]
  {
    var w := Pair(a, b, prefix, mask, hopA, hopB, staticsA, staticsB);
    HasByMember(w.own[a], Route(prefix, mask, hopB, b), w.own[a][0]);
    HasByMember(w.own[b], Route(prefix, mask, hopA, a), w.own[b][0]);
    assert Ends(w.own[a]) == {b} && Ends(w.own[b]) == {a};
  }

  lemma PairConsistent(a: Word, b: Word, prefix: Word, mask: Word, hopA: Word, hopB: Word,
                       staticsA: seq<Route>, staticsB: seq<Route>)
    requires a != b && a != 0 && b != 0
    requires Key(prefix, mask) !in KeysOf(staticsA) && Key(prefix, mask) !in KeysOf(staticsB)
    ensures Consistent(Pair(a, b, prefix, mask, hopA, hopB, staticsA, staticsB))
  {
    PairEnds(a, b, prefix, mask, hopA, hopB, staticsA, staticsB);
    hide EndsAgree;
    OneMaskCompatible([Route(prefix, mask, hopA, b)], staticsA, mask);
    OneMaskCompatible([Route(prefix, mask, hopB, a)], staticsB, mask);
    hide AdvertList;
  }

  lemma OneLsuAgrees(w: Holdings, x: Word, y: Word, subnets: seq<Route>, pastStart: bool)
    requires Consistent(w) && w.own.Keys == {x, y} && x != y
    requires OwnSoFar(subnets, w.own[x]) && DistinctPrefixes(w.own[x])
    ensures Agrees(w, x, AfterLsu(Initially(x, subnets), y, Adv(w, y), pastStart))
  {
    var t := Initially(x, subnets);
    StartsTruthful(w, x, subnets);
    LsuTeaches(w, x, t, y, pastStart);
    hide Knows, Truthful, AfterLsu, Consistent, Agrees, Places, Extends;
    KnowingAgrees(w, x, AfterLsu(t, y, Adv(w, y), pastStart));
  }

  // ---- a static route that repeats a link ----

  /** Router `y` is linked with at most `x`. Either it is not any more, or its first subnet is that link, and no
      other has its prefix and mask, or a router. */
  ghost predicate LinkOrNone(t: Topo, y: Word, x: Word, link: Route) {
    && y in t.links && y in t.subnets && t.links[y] <= {x}
    && (x in t.links[y] ==>
          var s := t.subnets[y];
          && 0 < |s| && SameSubnet(s[0], link)
          && forall j | 0 < j < |s| :: s[j].rid == 0 && !(s[j].prefix == link.prefix && s[j].mask == link.mask))
  }

  lemma StaticTaken(t: Topo, y: Word, x: Word, link: Route, r: Route)
    requires LinkOrNone(t, y, x, link) && link.rid == x != 0 && r.rid == 0
    ensures var u := Took(t, y, r);
            && LinkOrNone(u, y, x, link)
            && (x in u.links[y] ==> x in t.links[y] && !(r.prefix == link.prefix && r.mask == link.mask))
  {
    var s := t.subnets[y];
    if x in t.links[y] {
      if Has(s, r) {
        var i := FirstSame(s, r).value;
        assert i != 0 && s[i].rid == 0;
      } else if FirstWithPrefix(s, r.prefix).Some? {
        var i := FirstWithPrefix(s, r.prefix).value;
        assert i != 0 ==> s[i].rid == 0 && s[i].mask != r.mask;
      }
    }
  }

  lemma {:induction false} StaticsTaken(t: Topo, y: Word, x: Word, link: Route, routes: seq<Route>)
    requires LinkOrNone(t, y, x, link) && link.rid == x != 0 && forall r | r in routes :: r.rid == 0
    ensures var u := TookAll(t, y, routes);
            && LinkOrNone(u, y, x, link)
            && (x in u.links[y] ==> forall r | r in routes :: !(r.prefix == link.prefix && r.mask == link.mask))
            && (x in u.links[y] ==> x in t.links[y])
  {
    if routes != [] {
      var n := |routes| - 1;
      assert forall r | r in routes :: r in routes[..n] || r == routes[n];
      assert routes[n] in routes && forall r | r in routes[..n] :: r in routes;
      hide LinkOrNone, Took;
      StaticsTaken(t, y, x, link, routes[..n]);
      StaticTaken(TookAll(t, y, routes[..n]), y, x, link, routes[n]);
    }
  }

  lemma {:induction false} TookInTwo(t: Topo, y: Word, a: seq<Route>, b: seq<Route>)
    ensures TookAll(t, y, a + b) == TookAll(TookAll(t, y, a), y, b)
  {
    if b == [] {
      assert a + b == a;
    } else {
      hide Took;
      var n := |b| - 1;
      assert (a + b)[..|a + b| - 1] == a + b[..n];
      TookInTwo(t, y, a, b[..n]);
    }
  }

  /** The first route of a router on one link only, taken in by the router at the other end. */
  lemma LinkTaken(x: Word, y: Word, subnets: seq<Route>, link: Route)
    requires x != y && link.rid == x != 0
    ensures LinkOrNone(Took(Added(Initially(x, subnets), y), y, link), y, x, link)
  {
    var t := Added(Initially(x, subnets), y);
    assert SubsOf(t, y) == [] && LinksOf(t, y) == {} && !Has([], link) && [] + [link] == [link];
    var u := LearnedAt(t, y, link);
    assert u == SetSubs(t, y, [link]);
    var l := Connected(u, y, x);
    assert LinksOf(l, y) == {x} && SubsOf(l, y) == [link];
  }

  lemma LinkThenStatics(x: Word, y: Word, subnets: seq<Route>, link: Route, rest: seq<Route>)
    requires x != y && link.rid == x != 0 && forall r | r in rest :: r.rid == 0
    requires exists r | r in rest :: r.prefix == link.prefix && r.mask == link.mask
    ensures var t := Added(Initially(x, subnets), y); x !in LinksOf(TookAll(t, y, [link] + rest), y)
  {
    var t := Added(Initially(x, subnets), y);
    LinkTaken(x, y, subnets, link);
    assert [link][..0] == [];
    assert TookAll(t, y, [link]) == Took(t, y, link);
    hide Took;
    TookInTwo(t, y, [link], rest);
    StaticsTaken(Took(t, y, link), y, x, link, rest);
  }

  /** A static route with the prefix and mask of a router's only link makes the router at the other end lose that
      link, although the LSU advertises it. */
  lemma RepeatedLinkIsCut(x: Word, y: Word, subnets: seq<Route>, own: seq<Route>, statics: seq<Route>, pastStart: bool)
    requires x != y && |own| == 1 && own[0].rid == x != 0 && Key(own[0].prefix, own[0].mask) in KeysOf(statics)
    ensures x !in LinksOf(AfterLsu(Initially(x, subnets), y, AdvertList(own, statics), pastStart), y)
  {
    var t := Added(Initially(x, subnets), y);
    var advs := AdvertList(own, statics);
    var link, rest := advs[0], advs[1..];
    var s :| s in statics && Key(s.prefix, s.mask) == Key(own[0].prefix, own[0].mask);
    var k :| 0 <= k < |statics| && statics[k] == s;
    assert rest[k] in rest && rest[k].prefix == link.prefix && rest[k].mask == link.mask;
    assert advs == [link] + rest;
    LinkThenStatics(x, y, subnets, link, rest);
    hide AdvertList, TookAll;
    AddedGrows(Initially(x, subnets), y);
    TookAllKeeps(t, y, advs);
    PrunedShrinks(TookAll(t, y, advs), y, 0, advs);
  }

  /** Two routers that have taken in each other's LSUs, whether or not they had heard each other before, know the same
      links, each its own subnet as it set it up, and each the keys of the other, static routes included, if and only
      if no static route has the prefix and mask of their link. */
  lemma TwoRoutersAgree(a: Word, b: Word, prefix: Word, mask: Word, hopA: Word, hopB: Word, staticsA: seq<Route>,
                        staticsB: seq<Route>, startA: seq<Route>, startB: seq<Route>, pastA: bool, pastB: bool)
    requires a != b && a != 0 && b != 0
    requires OwnSoFar(startA, [Route(prefix, mask, hopA, b)]) && OwnSoFar(startB, [Route(prefix, mask, hopB, a)])
    ensures var w := Pair(a, b, prefix, mask, hopA, hopB, staticsA, staticsB);
            && w.own.Keys == w.statics.Keys
            && (Key(prefix, mask) !in KeysOf(staticsA) && Key(prefix, mask) !in KeysOf(staticsB) <==>
                && Agrees(w, a, AfterLsu(Initially(a, startA), b, Adv(w, b), pastA))
                && Agrees(w, b, AfterLsu(Initially(b, startB), a, Adv(w, a), pastB)))
  {
    var w := Pair(a, b, prefix, mask, hopA, hopB, staticsA, staticsB);
    PairEnds(a, b, prefix, mask, hopA, hopB, staticsA, staticsB);
    assert w.own[a] == [Route(prefix, mask, hopA, b)] && w.own[b] == [Route(prefix, mask, hopB, a)];
    assert w.statics[a] == staticsA && w.statics[b] == staticsB;
    hide AfterLsu, AdvertList, EndsAgree, OwnSoFar, LinksFrom, KeysOf, SameHoldings;
    if Key(prefix, mask) in KeysOf(staticsB) {
      RepeatedLinkIsCut(a, b, startA, w.own[b], staticsB, pastA);
    } else if Key(prefix, mask) in KeysOf(staticsA) {
      RepeatedLinkIsCut(b, a, startB, w.own[a], staticsA, pastB);
    } else {
      PairConsistent(a, b, prefix, mask, hopA, hopB, staticsA, staticsB);
      hide Pair, Consistent, Agrees;
      OneLsuAgrees(w, a, b, startA, pastA);
      OneLsuAgrees(w, b, a, startB, pastB);
    }
  }
}

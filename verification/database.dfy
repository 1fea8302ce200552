/** The topology database as a value, with routers named by their ids, and what LSUs, HELLOs and
    expiry do to it. The router keeps the same database as records that point at each other. */
module Database {
  import opened Graphs
  import opened Hellos
  import opened Records
  import opened Routers
  import opened Withdrawal

  /** Who is linked with whom, and the subnets of every router. */
  datatype Topo = Topo(links: Graph<Word>, subnets: map<Word, seq<Route>>)

  ghost predicate WellFormed(t: Topo) {
    t.links.Keys == t.subnets.Keys && Closed(t.links)
  }

  ghost function LinksOf(t: Topo, id: Word): set<Word> {
    if id in t.links then t.links[id] else {}
  }

  ghost function SubsOf(t: Topo, id: Word): seq<Route> {
    if id in t.subnets then t.subnets[id] else []
  }

  ghost function SetLinks(t: Topo, id: Word, ids: set<Word>): Topo {
    t.(links := t.links[id := ids])
  }

  ghost function SetSubs(t: Topo, id: Word, s: seq<Route>): Topo {
    t.(subnets := t.subnets[id := s])
  }

  /** Setting what is there already changes nothing. */
  lemma SetSame(t: Topo, id: Word)
    requires WellFormed(t) && id in t.links
    ensures SetLinks(t, id, LinksOf(t, id)) == t && SetSubs(t, id, SubsOf(t, id)) == t
  {
  }

  ghost function Added(t: Topo, id: Word): Topo {
    if id in t.links then t else Topo(t.links[id := {}], t.subnets[id := []])
  }

  // ---- advertised routes ----

  /** The host's own records after it advertised `route`: a clash costs it a link. */
  ghost function LearnedAt(t: Topo, host: Word, route: Route): Topo {
    var s := SubsOf(t, host);
    var u := SetSubs(t, host, Learned(s, route));
    if Clashes(s, route) then SetLinks(u, host, LinksOf(t, host) - {s[FirstWithPrefix(s, route.prefix).value].rid})
      else u
  }

  /** The records of the router at the other end after it is given the route back. */
  ghost function LearnedBackAt(t: Topo, con: Word, route: Route): Topo {
    var s := SubsOf(t, con);
    var u := SetSubs(t, con, LearnedBack(s, route));
    if ClashesBack(s, route) && route.rid != 0 then SetLinks(u, con, LinksOf(t, con) - {route.rid}) else u
  }

  ghost function Linked(t: Topo, a: Word, b: Word): Topo {
    var u := SetLinks(t, a, LinksOf(t, a) + {b});
    SetLinks(u, b, LinksOf(u, b) + {a})
  }

  ghost function Connected(t: Topo, host: Word, id: Word): Topo {
    Linked(Added(t, id), host, id)
  }

  /** One route advertised by `host`. */
  ghost function Took(t: Topo, host: Word, route: Route): Topo {
    var u := LearnedAt(t, host, route);
    if Clashes(SubsOf(t, host), route) || route.rid == 0 then u
    else LearnedBackAt(Connected(u, host, route.rid), route.rid, route.(rid := host))
  }

  ghost function TookAll(t: Topo, host: Word, routes: seq<Route>): Topo {
    if routes == [] then t
    else Took(TookAll(t, host, routes[..|routes| - 1]), host, routes[|routes| - 1])
  }

  /** The route runs into a subnet on its prefix that leads elsewhere, at one end or the other. */
  ghost predicate RunsIntoClash(t: Topo, host: Word, route: Route) {
    || Clashes(SubsOf(t, host), route)
    || (route.rid != 0
        && ClashesBack(SubsOf(Connected(LearnedAt(t, host, route), host, route.rid), route.rid), route.(rid := host)))
  }

  ghost predicate Clean(t: Topo, host: Word, routes: seq<Route>) {
    forall k | 0 <= k < |routes| :: !RunsIntoClash(TookAll(t, host, routes[..k]), host, routes[k])
  }

  // ---- withdrawal ----

  /** The first subnet of `host` attached to `id`, its counterpart, and the link between the two go. */
  ghost function WithdrawnAt(t: Topo, host: Word, id: Word): Topo {
    var u := SetSubs(t, host, RemoveFirst(SubsOf(t, host), id));
    if id !in t.links then u
    else
      var v := SetSubs(u, id, RemoveFirst(SubsOf(u, id), host));
      var w := SetLinks(v, id, LinksOf(v, id) - {host});
      SetLinks(w, host, LinksOf(w, host) - {id})
  }

  lemma WithdrawnSubs(t: Topo, host: Word, id: Word)
    requires host in t.links
    ensures SubsOf(WithdrawnAt(t, host, id), host) == Withdraw(SubsOf(t, host), id, host)
  {
  }

  ghost function Pruned(t: Topo, host: Word, i: nat, advs: seq<Route>): Topo
    requires host in t.links
    decreases |SubsOf(t, host)|, |SubsOf(t, host)| - i
  {
    var s := SubsOf(t, host);
    if i >= |s| then t
    else if Advertised(s[i], advs) then Pruned(t, host, i + 1, advs)
    else
      WithdrawnSubs(t, host, s[i].rid);
      Pruned(WithdrawnAt(t, host, s[i].rid), host, i, advs)
  }

  lemma PrunedAt(t: Topo, host: Word, i: nat, advs: seq<Route>)
    requires host in t.links
    ensures var s := SubsOf(t, host);
            Pruned(t, host, i, advs) == if i >= |s| then t
              else if Advertised(s[i], advs) then Pruned(t, host, i + 1, advs)
              else Pruned(WithdrawnAt(t, host, s[i].rid), host, i, advs)
  {
  }

  /** What an LSU does to the database. */
  ghost function AfterLsu(t: Topo, host: Word, routes: seq<Route>, pastStart: bool): Topo {
    var u := TookAll(Added(t, host), host, routes);
    TookAllKeeps(Added(t, host), host, routes);
    if pastStart then Pruned(u, host, 0, routes) else u
  }

  lemma LearnedAtKeeps(t: Topo, host: Word, route: Route)
    requires host in t.links
    ensures var u := LearnedAt(t, host, route);
            && u.links.Keys == t.links.Keys && SubsOf(u, host) == Learned(SubsOf(t, host), route)
            && (WellFormed(t) ==> WellFormed(u))
  {
    hide Clashes, Learned;
  }

  lemma ConnectedKeeps(t: Topo, host: Word, id: Word)
    requires host in t.links
    ensures var u := Connected(t, host, id);
            && u.links.Keys == t.links.Keys + {id} && SubsOf(u, host) == SubsOf(t, host)
            && (WellFormed(t) ==> WellFormed(u))
  {
  }

  lemma LearnedBackAtKeeps(t: Topo, con: Word, route: Route)
    requires con in t.links
    ensures var u := LearnedBackAt(t, con, route);
            && u.links.Keys == t.links.Keys && SubsOf(u, con) == LearnedBack(SubsOf(t, con), route)
            && (forall x | x != con :: SubsOf(u, x) == SubsOf(t, x))
            && (WellFormed(t) ==> WellFormed(u))
  {
    hide ClashesBack, LearnedBack;
  }

  /** A route changes the host's own subnets as it changes a lone list. */
  lemma TookKeeps(t: Topo, host: Word, route: Route)
    requires host in t.links
    ensures t.links.Keys <= Took(t, host, route).links.Keys
    ensures SubsOf(Took(t, host, route), host) == Learned(SubsOf(t, host), route)
    ensures WellFormed(t) ==> WellFormed(Took(t, host, route))
  {
    hide LearnedAt, LearnedBackAt, Connected, WellFormed, Clashes, Learned, LearnedBack;
    LearnedAtKeeps(t, host, route);
    var u := LearnedAt(t, host, route);
    if !(Clashes(SubsOf(t, host), route) || route.rid == 0) {
      ConnectedKeeps(u, host, route.rid);
      LearnedBackAtKeeps(Connected(u, host, route.rid), route.rid, route.(rid := host));
      if route.rid == host {
        LearnedBackIsLearned(SubsOf(t, host), route);
      }
    }
  }

  lemma LearnedBackIsLearned(s: seq<Route>, route: Route)
    requires !Clashes(s, route)
    ensures Has(Learned(s, route), route) && LearnedBack(Learned(s, route), route) == Learned(s, route)
  {
    var r := Learned(s, route);
    if !Has(s, route) {
      var place := FirstWithPrefix(s, route.prefix);
      var k := if place.Some? && s[place.value].mask == route.mask then place.value else |s|;
      assert SameSubnet(r[k], route);
    }
  }

  lemma {:induction false} TookAllKeeps(t: Topo, host: Word, routes: seq<Route>)
    requires host in t.links
    ensures t.links.Keys <= TookAll(t, host, routes).links.Keys
    ensures SubsOf(TookAll(t, host, routes), host) == LearnedAll(SubsOf(t, host), routes)
    ensures WellFormed(t) ==> WellFormed(TookAll(t, host, routes))
  {
    hide Took, Learned, WellFormed;
    if routes != [] {
      var n := |routes| - 1;
      TookAllKeeps(t, host, routes[..n]);
      TookKeeps(TookAll(t, host, routes[..n]), host, routes[n]);
    }
  }

  /** The host's subnets after it advertised these routes. */
  ghost function LearnedAll(s: seq<Route>, routes: seq<Route>): seq<Route> {
    if routes == [] then s else Learned(LearnedAll(s, routes[..|routes| - 1]), routes[|routes| - 1])
  }

  // ---- links ----

  /** Linked both ways. */
  ghost predicate Mutual(t: Topo, a: Word, b: Word) {
    b in LinksOf(t, a) && a in LinksOf(t, b)
  }

  /** Linked in neither direction. */
  ghost predicate Apart(t: Topo, a: Word, b: Word) {
    b !in LinksOf(t, a) && a !in LinksOf(t, b)
  }

  ghost predicate Symmetric(t: Topo) {
    forall a: Word, b: Word | b in LinksOf(t, a) :: a in LinksOf(t, b)
  }

  /** `u` has all routers and links of `t`. */
  ghost predicate Grows(t: Topo, u: Topo) {
    t.links.Keys <= u.links.Keys && forall a: Word :: LinksOf(t, a) <= LinksOf(u, a)
  }

  /** `u` has the routers of `t` and at most its links. */
  ghost predicate Shrinks(t: Topo, u: Topo) {
    t.links.Keys == u.links.Keys && forall a: Word :: LinksOf(u, a) <= LinksOf(t, a)
  }

  lemma AddedGrows(t: Topo, id: Word)
    requires WellFormed(t)
    ensures WellFormed(Added(t, id)) && Grows(t, Added(t, id)) && (Symmetric(t) ==> Symmetric(Added(t, id)))
    ensures id in Added(t, id).links && forall x :: SubsOf(Added(t, id), x) == SubsOf(t, x)
  {
  }

  lemma LinkedGrows(t: Topo, a: Word, b: Word)
    requires a in t.links && b in t.links
    ensures Grows(t, Linked(t, a, b)) && (Symmetric(t) ==> Symmetric(Linked(t, a, b))) && Mutual(Linked(t, a, b), a, b)
  {
  }

  lemma GrowsFurther(t: Topo, u: Topo, v: Topo)
    requires Grows(t, u) && Grows(u, v)
    ensures Grows(t, v) && forall a: Word, b: Word | Mutual(u, a, b) :: Mutual(v, a, b)
  {
    forall a: Word, b: Word | Mutual(u, a, b)
      ensures Mutual(v, a, b)
    {
      assert LinksOf(u, a) <= LinksOf(v, a) && LinksOf(u, b) <= LinksOf(v, b);
    }
    forall a: Word
      ensures LinksOf(t, a) <= LinksOf(v, a)
    {
      assert LinksOf(t, a) <= LinksOf(u, a) <= LinksOf(v, a);
    }
  }

  lemma SameLinks(t: Topo, u: Topo)
    requires t.links == u.links
    ensures Grows(t, u) && Symmetric(t) == Symmetric(u) && forall a: Word, b: Word :: Mutual(t, a, b) == Mutual(u, a, b)
  {
    assert forall a: Word :: LinksOf(t, a) == LinksOf(u, a);
  }

  /** A route that runs into no clash only adds links, both ways, and both ends then hold its subnet. */
  lemma TookGrows(t: Topo, host: Word, route: Route)
    requires WellFormed(t) && host in t.links && !RunsIntoClash(t, host, route)
    ensures var u := Took(t, host, route);
            && Grows(t, u) && (Symmetric(t) ==> Symmetric(u)) && (route.rid != 0 ==> Mutual(u, host, route.rid))
    ensures Has(SubsOf(Took(t, host, route), host), route)
    ensures route.rid != 0 ==> exists s | s in SubsOf(Took(t, host, route), route.rid) ::
            s.prefix == route.prefix && s.rid == host
  {
    var u := LearnedAt(t, host, route);
    LearnedAtKeeps(t, host, route);
    TookKeeps(t, host, route);
    LearnedBackIsLearned(SubsOf(t, host), route);
    SameLinks(t, u);
    if route.rid != 0 {
      var v := Added(u, route.rid);
      AddedGrows(u, route.rid);
      LinkedGrows(v, host, route.rid);
      var w := Linked(v, host, route.rid);
      var back := route.(rid := host);
      HoldsWayBack(SubsOf(w, route.rid), back);
      LearnedBackAtKeeps(w, route.rid, back);
      assert LearnedBackAt(w, route.rid, back).links == w.links;
      SameLinks(w, LearnedBackAt(w, route.rid, back));
      hide Clashes, ClashesBack, Learned, LearnedBack, Has, WellFormed, Grows, Mutual, Symmetric, LearnedAt,
           LearnedBackAt, Linked, Added;
      GrowsFurther(t, u, v);
      GrowsFurther(t, v, w);
      GrowsFurther(t, w, LearnedBackAt(w, route.rid, back));
    }
  }

  lemma HoldsWayBack(s: seq<Route>, route: Route)
    requires !ClashesBack(s, route)
    ensures exists r | r in LearnedBack(s, route) :: r.prefix == route.prefix && r.rid == route.rid
  {
    var b := LearnedBack(s, route);
    if Has(s, route) {
      assert b[FirstSame(s, route).value] in b;
    } else {
      var place := FirstWithPrefix(s, route.prefix);
      assert b[if place.Some? then place.value else |s|] in b;
    }
  }

  /** `host` is linked both ways with every router that the routes lead to. */
  ghost predicate ReachesAll(t: Topo, host: Word, routes: seq<Route>) {
    forall k | 0 <= k < |routes| && routes[k].rid != 0 :: Mutual(t, host, routes[k].rid)
  }

  lemma ReachesOneMore(t: Topo, u: Topo, v: Topo, host: Word, routes: seq<Route>)
    requires routes != [] && Grows(t, u) && ReachesAll(u, host, routes[..|routes| - 1]) && Grows(u, v)
    requires routes[|routes| - 1].rid != 0 ==> Mutual(v, host, routes[|routes| - 1].rid)
    ensures Grows(t, v) && ReachesAll(v, host, routes)
  {
    hide Grows, Mutual;
    GrowsFurther(t, u, v);
    assert forall k | 0 <= k < |routes| - 1 :: routes[..|routes| - 1][k] == routes[k];
  }

  lemma {:induction false} TookAllGrows(t: Topo, host: Word, routes: seq<Route>)
    requires WellFormed(t) && host in t.links && Clean(t, host, routes)
    ensures Grows(t, TookAll(t, host, routes)) && ReachesAll(TookAll(t, host, routes), host, routes)
    ensures Symmetric(t) ==> Symmetric(TookAll(t, host, routes))
  {
    SameLinks(t, t);
    if routes != [] {
      var n := |routes| - 1;
      var u := TookAll(t, host, routes[..n]);
      hide WellFormed, RunsIntoClash, Took, Symmetric, Clean, Grows, Mutual, ReachesAll, LearnedAll, SubsOf, Has;
      CleanPrefix(t, host, routes);
      TookAllGrows(t, host, routes[..n]);
      TookAllKeeps(t, host, routes[..n]);
      TookGrows(u, host, routes[n]);
      ReachesOneMore(t, u, Took(u, host, routes[n]), host, routes);
    }
  }

  lemma CleanPrefix(t: Topo, host: Word, routes: seq<Route>)
    requires routes != [] && Clean(t, host, routes)
    ensures var n := |routes| - 1;
            && Clean(t, host, routes[..n])
            && !RunsIntoClash(TookAll(t, host, routes[..n]), host, routes[n])
  {
    hide RunsIntoClash, TookAll;
    var n := |routes| - 1;
    forall k | 0 <= k < n
      ensures !RunsIntoClash(TookAll(t, host, routes[..n][..k]), host, routes[..n][k])
    {
      assert routes[..n][..k] == routes[..k];
    }
  }

  /** Withdrawing only takes links away, always both directions. */
  lemma WithdrawnShrinks(t: Topo, host: Word, id: Word)
    requires WellFormed(t) && host in t.links
    ensures var u := WithdrawnAt(t, host, id);
            && WellFormed(u) && Shrinks(t, u) && (Symmetric(t) ==> Symmetric(u)) && Apart(u, host, id)
            && (forall a: Word, b: Word | !(a == host && b == id) && !(a == id && b == host) ::
                  b in LinksOf(u, a) <==> b in LinksOf(t, a))
  {
    hide RemoveFirst;
  }

  lemma {:induction false} PrunedShrinks(t: Topo, host: Word, i: nat, advs: seq<Route>)
    requires WellFormed(t) && host in t.links
    ensures var u := Pruned(t, host, i, advs);
            && WellFormed(u) && Shrinks(t, u) && (Symmetric(t) ==> Symmetric(u))
            && SubsOf(u, host) == Prune(SubsOf(t, host), i, advs, host)
    decreases |SubsOf(t, host)|, |SubsOf(t, host)| - i
  {
    hide WellFormed, Symmetric, Apart, Advertised, Withdraw, WithdrawnAt;
    var s := SubsOf(t, host);
    if i < |s| {
      PruneAt(s, i, advs, host);
      if Advertised(s[i], advs) {
        PrunedShrinks(t, host, i + 1, advs);
      } else {
        WithdrawnSubs(t, host, s[i].rid);
        WithdrawnShrinks(t, host, s[i].rid);
        PrunedShrinks(WithdrawnAt(t, host, s[i].rid), host, i, advs);
      }
    } else {
      PruneEnd(s, i, advs, host);
    }
  }

  /** An LSU changes its host's subnets as if they were a list of their own. */
  lemma AfterLsuHost(t: Topo, host: Word, routes: seq<Route>, pastStart: bool)
    requires WellFormed(t)
    ensures var learned := LearnedAll(SubsOf(t, host), routes);
            SubsOf(AfterLsu(t, host, routes, pastStart), host) == if pastStart then Prune(learned, 0, routes, host)
              else learned
  {
    hide WellFormed, SubsOf, TookAll, LearnedAll, Prune, Added;
    AddedGrows(t, host);
    TookAllKeeps(Added(t, host), host, routes);
    if pastStart {
      PrunedShrinks(TookAll(Added(t, host), host, routes), host, 0, routes);
    }
  }

  /** An LSU without clashes keeps all links going both ways. During start-up links only grow, and reach
      every advertised router. */
  lemma AfterLsuLinks(t: Topo, host: Word, routes: seq<Route>, pastStart: bool)
    requires WellFormed(t) && Clean(Added(t, host), host, routes)
    ensures var u := AfterLsu(t, host, routes, pastStart);
            && WellFormed(u) && t.links.Keys <= u.links.Keys && (Symmetric(t) ==> Symmetric(u))
            && (!pastStart ==> Grows(t, u) && ReachesAll(u, host, routes))
  {
    hide WellFormed, SubsOf, TookAll, LearnedAll, Prune, Added, Symmetric, Mutual, ReachesAll;
    var v := Added(t, host);
    AddedGrows(t, host);
    TookAllKeeps(v, host, routes);
    TookAllGrows(v, host, routes);
    GrowsFurther(t, v, TookAll(v, host, routes));
    PrunedShrinks(TookAll(v, host, routes), host, 0, routes);
  }

  lemma AfterLsuWellFormed(t: Topo, host: Word, routes: seq<Route>, pastStart: bool)
    requires WellFormed(t)
    ensures var u := AfterLsu(t, host, routes, pastStart);
            WellFormed(u) && t.links.Keys <= u.links.Keys && host in u.links
  {
    hide WellFormed, SubsOf, TookAll, LearnedAll, Prune, Added, Symmetric;
    var v := Added(t, host);
    AddedGrows(t, host);
    TookAllKeeps(v, host, routes);
    PrunedShrinks(TookAll(v, host, routes), host, 0, routes);
  }

  /** No unadvertised subnet is attached to router `id`. */
  ghost predicate Spared(s: seq<Route>, advs: seq<Route>, id: Word) {
    forall r | r in s && !Advertised(r, advs) :: r.rid != id
  }

  lemma SparedAfterWithdraw(s: seq<Route>, advs: seq<Route>, id: Word, gone: Word, host: Word)
    requires Spared(s, advs, id)
    ensures Spared(Withdraw(s, gone, host), advs, id)
  {
    hide Advertised, Withdraw;
    forall r | r in Withdraw(s, gone, host)
      ensures r in s
    {
      assert r in multiset(Withdraw(s, gone, host));
      assert r in multiset(s);
    }
  }

  lemma {:induction false} PrunedSpares(t: Topo, host: Word, i: nat, advs: seq<Route>, id: Word)
    requires WellFormed(t) && host in t.links && Spared(SubsOf(t, host), advs, id) && Mutual(t, host, id)
    ensures Mutual(Pruned(t, host, i, advs), host, id)
    decreases |SubsOf(t, host)|, |SubsOf(t, host)| - i
  {
    hide WellFormed, Symmetric, Apart, Advertised, Withdraw, WithdrawnAt;
    var s := SubsOf(t, host);
    if i < |s| {
      if Advertised(s[i], advs) {
        PrunedSpares(t, host, i + 1, advs, id);
      } else {
        assert s[i] in s;
        WithdrawnSubs(t, host, s[i].rid);
        WithdrawnShrinks(t, host, s[i].rid);
        SparedAfterWithdraw(s, advs, id, s[i].rid, host);
        PrunedSpares(WithdrawnAt(t, host, s[i].rid), host, i, advs, id);
      }
    }
  }

  /** Past start-up, an LSU without clashes whose routers are not those of subnets it leaves out makes its
      host hold exactly the advertised ones of its subnets and be linked both ways with every router
      advertised. */
  lemma AfterLsuIsExact(t: Topo, host: Word, routes: seq<Route>)
    requires WellFormed(t) && Clean(Added(t, host), host, routes)
    requires Unmixed(LearnedAll(SubsOf(t, host), routes), routes)
    requires forall k | 0 <= k < |routes| && routes[k].rid != 0 ::
               Spared(LearnedAll(SubsOf(t, host), routes), routes, routes[k].rid)
    ensures var u := AfterLsu(t, host, routes, true);
            && Exact(LearnedAll(SubsOf(t, host), routes), SubsOf(u, host), routes)
            && ReachesAll(u, host, routes)
  {
    hide WellFormed, SubsOf, TookAll, LearnedAll, Prune, Added, Symmetric, Mutual, Unmixed, Spared, Exact;
    var v := Added(t, host);
    var w := TookAll(v, host, routes);
    AfterLsuHost(t, host, routes, true);
    PruneExact(LearnedAll(SubsOf(t, host), routes), 0, routes, host);
    AddedGrows(t, host);
    TookAllKeeps(v, host, routes);
    TookAllGrows(v, host, routes);
    forall k | 0 <= k < |routes| && routes[k].rid != 0
      ensures Mutual(Pruned(w, host, 0, routes), host, routes[k].rid)
    {
      PrunedSpares(w, host, 0, routes, routes[k].rid);
    }
  }

  // ---- expiry ----

  /** Router `id` goes, with all links to it and one subnet leading to it in every other router. */
  ghost function Dropped(t: Topo, id: Word): Topo {
    Topo(map x | x in t.links && x != id :: t.links[x] - {id},
         map x | x in t.subnets && x != id :: RemoveFirst(t.subnets[x], id))
  }

  ghost function DroppedAll(t: Topo, ids: seq<Word>): Topo {
    if ids == [] then t else Dropped(DroppedAll(t, ids[..|ids| - 1]), ids[|ids| - 1])
  }

  ghost predicate AllDistinct(ids: seq<Word>) {
    forall i, j | 0 <= i < j < |ids| :: ids[i] != ids[j]
  }

  lemma DroppedOneMore(t: Topo, ids: seq<Word>, id: Word)
    ensures DroppedAll(t, ids + [id]) == Dropped(DroppedAll(t, ids), id)
  {
    assert (ids + [id])[..|ids|] == ids;
  }

  /** `u` is `t` without the given routers: exactly the links among the others are left. */
  ghost predicate Lacks(t: Topo, u: Topo, ids: set<Word>) {
    && u.links.Keys == t.links.Keys - ids
    && (forall a: Word :: LinksOf(u, a) == if a in ids then {} else LinksOf(t, a) - ids)
  }

  lemma DroppedOne(t: Topo, id: Word)
    requires WellFormed(t)
    ensures WellFormed(Dropped(t, id)) && Lacks(t, Dropped(t, id), {id})
  {
    hide RemoveFirst;
    var u := Dropped(t, id);
    forall a: Word
      ensures LinksOf(u, a) == if a in {id} then {} else LinksOf(t, a) - {id}
    {
    }
  }

  lemma LacksFurther(t: Topo, u: Topo, v: Topo, ids: set<Word>, id: Word)
    requires Lacks(t, u, ids) && Lacks(u, v, {id})
    ensures Lacks(t, v, ids + {id})
  {
    forall a: Word
      ensures LinksOf(v, a) == if a in ids + {id} then {} else LinksOf(t, a) - (ids + {id})
    {
      assert LinksOf(v, a) == if a in {id} then {} else LinksOf(u, a) - {id};
    }
  }

  lemma LacksIsSymmetric(t: Topo, u: Topo, ids: set<Word>)
    requires Lacks(t, u, ids) && Symmetric(t)
    ensures Symmetric(u)
  {
    forall a: Word, b: Word | b in LinksOf(u, a)
      ensures a in LinksOf(u, b)
    {
      assert b in LinksOf(t, a) && a in LinksOf(t, b);
    }
  }

  ghost function Elements(ids: seq<Word>): set<Word> {
    set x | x in ids
  }

  lemma OneMoreElement(ids: seq<Word>)
    ensures ids == [] ==> Elements(ids) == {}
    ensures ids != [] ==> Elements(ids) == Elements(ids[..|ids| - 1]) + {ids[|ids| - 1]}
  {
    if ids != [] {
      assert ids == ids[..|ids| - 1] + [ids[|ids| - 1]];
    }
  }

  /** Dropping routers leaves exactly the links among the others. */
  lemma {:induction false} DroppedAllIsRestriction(t: Topo, ids: seq<Word>)
    requires WellFormed(t)
    ensures WellFormed(DroppedAll(t, ids)) && Lacks(t, DroppedAll(t, ids), Elements(ids))
    ensures Symmetric(t) ==> Symmetric(DroppedAll(t, ids))
  {
    assert Lacks(t, t, {});
    hide Lacks, WellFormed, Dropped, Symmetric, Elements;
    OneMoreElement(ids);
    if ids != [] {
      var n := |ids| - 1;
      var u := DroppedAll(t, ids[..n]);
      DroppedAllIsRestriction(t, ids[..n]);
      DroppedOne(u, ids[n]);
      LacksFurther(t, u, Dropped(u, ids[n]), Elements(ids[..n]), ids[n]);
    }
    if Symmetric(t) {
      LacksIsSymmetric(t, DroppedAll(t, ids), Elements(ids));
    }
  }

  // ---- HELLOs ----

  /** Sweeping the neighbours from place `i` on withdraws those gone silent. */
  ghost function SweptTopo(t: Topo, me: Word, ns: seq<Neighbor>, i: nat, now: int): Topo
    decreases |ns|, |ns| - i
  {
    if i >= |ns| then t
    else if ns[i].timeNotValid < now then SweptTopo(WithdrawnAt(t, me, ns[i].id), me, SwapRemove(ns, i), i, now)
    else SweptTopo(t, me, ns, i + 1, now)
  }

  ghost function PassedTopo(t: Topo, me: Word, f: Iface, h: Hello, now: int, pastStart: bool): Topo {
    var u := if pastStart then SweptTopo(t, me, f.neighbors, 0, now) else t;
    if f.name == h.iface && !Mismatch(f, h) then SetSubs(u, me, Identified(SubsOf(u, me), h)) else u
  }

  /** What a HELLO does to the database, from interface `k` on. */
  ghost function AfterHelloTopo(t: Topo, me: Word, ifs: seq<Iface>, k: nat, h: Hello, now: int, pastStart: bool): Topo
    decreases |ifs| - k
  {
    if k >= |ifs| then t
    else
      var u := PassedTopo(t, me, ifs[k], h, now, pastStart);
      if StopsAt(ifs[k], h) then u else AfterHelloTopo(u, me, ifs, k + 1, h, now, pastStart)
  }

  /** The walk over the interfaces ends here. */
  ghost predicate StopsAt(f: Iface, h: Hello) {
    f.name == h.iface && Mismatch(f, h)
  }

  lemma SweptTopoAt(t: Topo, me: Word, ns: seq<Neighbor>, i: nat, now: int)
    ensures SweptTopo(t, me, ns, i, now) == if i >= |ns| then t
              else if ns[i].timeNotValid < now
                then SweptTopo(WithdrawnAt(t, me, ns[i].id), me, SwapRemove(ns, i), i, now)
              else SweptTopo(t, me, ns, i + 1, now)
  {
  }

  lemma {:induction false} NobodySwept(t: Topo, me: Word, ns: seq<Neighbor>, i: nat, now: int)
    requires forall j | 0 <= j < |ns| :: now <= ns[j].timeNotValid
    ensures SweptTopo(t, me, ns, i, now) == t
    decreases |ns| - i
  {
    SweptTopoAt(t, me, ns, i, now);
    if i < |ns| {
      NobodySwept(t, me, ns, i + 1, now);
    }
  }

  lemma AfterHelloTopoAt(t: Topo, me: Word, ifs: seq<Iface>, k: nat, h: Hello, now: int, pastStart: bool)
    ensures AfterHelloTopo(t, me, ifs, k, h, now, pastStart) == if k >= |ifs| then t
              else
                var u := PassedTopo(t, me, ifs[k], h, now, pastStart);
                if StopsAt(ifs[k], h) then u else AfterHelloTopo(u, me, ifs, k + 1, h, now, pastStart)
  {
  }

  lemma ShrinksFurther(t: Topo, u: Topo, v: Topo)
    requires Shrinks(t, u) && Shrinks(u, v)
    ensures Shrinks(t, v) && forall a: Word, b: Word | Apart(u, a, b) :: Apart(v, a, b)
  {
    forall a: Word
      ensures LinksOf(v, a) <= LinksOf(u, a) <= LinksOf(t, a)
    {
    }
  }

  lemma {:induction false} SweptTopoShrinks(t: Topo, me: Word, ns: seq<Neighbor>, i: nat, now: int)
    requires WellFormed(t) && me in t.links && i <= |ns| && forall j | 0 <= j < i :: now <= ns[j].timeNotValid
    ensures var u := SweptTopo(t, me, ns, i, now);
            && WellFormed(u) && Shrinks(t, u) && (Symmetric(t) ==> Symmetric(u))
            && forall j | 0 <= j < |ns| && ns[j].timeNotValid < now :: Apart(u, me, ns[j].id)
    decreases |ns|, |ns| - i
  {
    hide WellFormed, Symmetric, WithdrawnAt;
    if i < |ns| {
      if ns[i].timeNotValid < now {
        var v := WithdrawnAt(t, me, ns[i].id);
        var rest := SwapRemove(ns, i);
        WithdrawnShrinks(t, me, ns[i].id);
        SweptTopoShrinks(v, me, rest, i, now);
        hide SweptTopo;
        ShrinksFurther(t, v, SweptTopo(v, me, rest, i, now));
        assert forall j | 0 <= j < |ns| && j != i :: ns[j] == rest[if j == |ns| - 1 then i else j];
      } else {
        SweptTopoShrinks(t, me, ns, i + 1, now);
      }
    }
  }

  lemma PassedTopoShrinks(t: Topo, me: Word, f: Iface, h: Hello, now: int, pastStart: bool)
    requires WellFormed(t) && me in t.links
    ensures var u := PassedTopo(t, me, f, h, now, pastStart);
            && WellFormed(u) && Shrinks(t, u) && (Symmetric(t) ==> Symmetric(u))
            && (pastStart ==> forall j | 0 <= j < |f.neighbors| && f.neighbors[j].timeNotValid < now ::
                                Apart(u, me, f.neighbors[j].id))
  {
    hide Identified, SweptTopo;
    SweptTopoShrinks(t, me, f.neighbors, 0, now);
    var v := if pastStart then SweptTopo(t, me, f.neighbors, 0, now) else t;
    var u := PassedTopo(t, me, f, h, now, pastStart);
    assert forall a: Word :: LinksOf(u, a) == LinksOf(v, a);
  }

  /** Once start-up is over, a HELLO parts this router from every neighbour gone silent on the interfaces
      it gets to; it adds no link, and takes away none in one direction only. */
  lemma {:induction false} AfterHelloParts(t: Topo, me: Word, ifs: seq<Iface>, k: nat, h: Hello, now: int,
            pastStart: bool)
    requires WellFormed(t) && me in t.links
    ensures var u := AfterHelloTopo(t, me, ifs, k, h, now, pastStart);
            && WellFormed(u) && Shrinks(t, u) && (Symmetric(t) ==> Symmetric(u))
    ensures pastStart ==>
              forall i, j | k <= i < |ifs| && GetsTo(ifs, k, i, h) && 0 <= j < |ifs[i].neighbors|
                            && ifs[i].neighbors[j].timeNotValid < now ::
                Apart(AfterHelloTopo(t, me, ifs, k, h, now, pastStart), me, ifs[i].neighbors[j].id)
    decreases |ifs| - k
  {
    hide WellFormed, Symmetric, PassedTopo, StopsAt, Apart;
    if k < |ifs| {
      var u := PassedTopo(t, me, ifs[k], h, now, pastStart);
      PassedTopoShrinks(t, me, ifs[k], h, now, pastStart);
      if !StopsAt(ifs[k], h) {
        AfterHelloParts(u, me, ifs, k + 1, h, now, pastStart);
        ShrinksFurther(t, u, AfterHelloTopo(u, me, ifs, k + 1, h, now, pastStart));
        assert forall i | k < i < |ifs| && GetsTo(ifs, k, i, h) :: GetsTo(ifs, k + 1, i, h);
      }
    }
  }

  /** The walk from interface `k` gets to interface `i`. */
  ghost predicate GetsTo(ifs: seq<Iface>, k: nat, i: nat, h: Hello)
    requires i <= |ifs|
  {
    forall j | k <= j < i :: !StopsAt(ifs[j], h)
  }

  // ---- whole runs ----

  datatype Event =
    | LsuEvent(host: Word, routes: seq<Route>, pastStart: bool)
    | HelloEvent(ifs: seq<Iface>, hello: Hello, now: int, pastStart: bool)
    | ExpiryEvent(ids: seq<Word>)

  ghost function After(t: Topo, me: Word, e: Event): Topo {
    match e
    case LsuEvent(host, routes, pastStart) => AfterLsu(t, host, routes, pastStart)
    case HelloEvent(ifs, h, now, pastStart) => AfterHelloTopo(t, me, ifs, 0, h, now, pastStart)
    case ExpiryEvent(ids) => DroppedAll(t, ids)
  }

  ghost function AfterAll(t: Topo, me: Word, es: seq<Event>): Topo {
    if es == [] then t else After(AfterAll(t, me, es[..|es| - 1]), me, es[|es| - 1])
  }

  /** The router itself does not expire. */
  ghost predicate SparesMe(me: Word, es: seq<Event>) {
    forall k | 0 <= k < |es| && es[k].ExpiryEvent? :: me !in es[k].ids
  }

  /** No LSU of the run clashes with what is known by then. */
  ghost predicate CleanRun(t: Topo, me: Word, es: seq<Event>) {
    forall k | 0 <= k < |es| && es[k].LsuEvent? ::
           Clean(Added(AfterAll(t, me, es[..k]), es[k].host), es[k].host, es[k].routes)
  }

  lemma AfterKeeps(t: Topo, me: Word, e: Event)
    requires WellFormed(t) && me in t.links && (e.ExpiryEvent? ==> me !in e.ids)
    ensures WellFormed(After(t, me, e)) && me in After(t, me, e).links
    ensures (e.LsuEvent? ==> Clean(Added(t, e.host), e.host, e.routes)) && Symmetric(t) ==> Symmetric(After(t, me, e))
  {
    hide WellFormed, Symmetric, AfterLsu, AfterHelloTopo, DroppedAll, Clean;
    match e
    case LsuEvent(host, routes, pastStart) =>
      AfterLsuWellFormed(t, host, routes, pastStart);
      if Clean(Added(t, host), host, routes) {
        AfterLsuLinks(t, host, routes, pastStart);
      }
    case HelloEvent(ifs, h, now, pastStart) =>
      AfterHelloParts(t, me, ifs, 0, h, now, pastStart);
    case ExpiryEvent(ids) =>
      DroppedAllIsRestriction(t, ids);
  }

  /** In every run links stay inside the network and this router in it, and as long as no LSU clashes
      links go both ways. */
  lemma {:induction false} RunKeepsTopology(t: Topo, me: Word, es: seq<Event>)
    requires WellFormed(t) && me in t.links && SparesMe(me, es)
    ensures WellFormed(AfterAll(t, me, es)) && me in AfterAll(t, me, es).links
    ensures CleanRun(t, me, es) && Symmetric(t) ==> Symmetric(AfterAll(t, me, es))
  {
    if es != [] {
      var n := |es| - 1;
      assert forall k | 0 <= k < n :: es[..n][k] == es[k] && es[..n][..k] == es[..k];
      hide WellFormed, Symmetric, After, Clean;
      RunKeepsTopology(t, me, es[..n]);
      AfterKeeps(AfterAll(t, me, es[..n]), me, es[n]);
    }
  }

  /** The database at start. */
  ghost function Initially(me: Word, subnets: seq<Route>): Topo {
    Topo(map[me := {}], map[me := subnets])
  }

  lemma RunFromStart(me: Word, subnets: seq<Route>, es: seq<Event>)
    requires SparesMe(me, es)
    ensures var t := AfterAll(Initially(me, subnets), me, es);
            && WellFormed(t) && me in t.links
            && (CleanRun(Initially(me, subnets), me, es) ==> Symmetric(t))
  {
    RunKeepsTopology(Initially(me, subnets), me, es);
  }
}

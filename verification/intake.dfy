/** What one advertised route does to the database, case by case: to the subnets at both ends, and to the links. */
module Intake {
  import opened Database
  import opened Records
  import opened Routers

  /** Subnet `i` is the first on its prefix. */
  ghost predicate Foremost(s: seq<Route>, prefix: Word, i: nat) {
    i < |s| && s[i].prefix == prefix && forall k | 0 <= k < i :: s[k].prefix != prefix
  }

  /** A subnet with the same prefix, mask and router is there. */
  ghost predicate Known(s: seq<Route>, r: Route) {
    exists k :: 0 <= k < |s| && s[k].prefix == r.prefix && s[k].mask == r.mask && s[k].rid == r.rid
  }

  ghost predicate NewPrefix(s: seq<Route>, prefix: Word) {
    forall k | 0 <= k < |s| :: s[k].prefix != prefix
  }

  /** The host advertised `r` while its first subnet on that prefix is `o`: beside a subnet of another mask it is added
      unless both have a router; else it gives `o` its router, if that has none, and makes the host lose `o` if it
      has one. */
  ghost predicate Meets(s: seq<Route>, u: seq<Route>, r: Route, i: nat)
    requires i < |s|
  {
    var o := s[i];
    if o.mask != r.mask && (o.rid == 0 || r.rid == 0) then u == s + [r]
    else if o.rid == 0 then u == s[i := Route(o.prefix, o.mask, o.nextHop, r.rid)]
    else u == s[i := s[|s| - 1]][..|s| - 1]
  }

  /** `u` is `s` after the host advertised `r`. */
  ghost predicate TakesIn(s: seq<Route>, u: seq<Route>, r: Route) {
    if Known(s, r) then u == s
    else if NewPrefix(s, r.prefix) then u == s + [r]
    else exists i: nat :: Foremost(s, r.prefix, i) && Meets(s, u, r, i)
  }

  ghost function GivenRouter(s: seq<Route>, i: nat, id: Word): seq<Route>
    requires i < |s|
  {
    if s[i].rid == 0 then s[i := Route(s[i].prefix, s[i].mask, s[i].nextHop, id)] else s
  }

  /** `u` is `s` after the way back `r` was given: it is added on a new prefix, and else only gives the first subnet
      there its router. */
  ghost predicate TakesBack(s: seq<Route>, u: seq<Route>, r: Route) {
    if Known(s, r) then u == s
    else if NewPrefix(s, r.prefix) then u == s + [r]
    else exists i: nat :: Foremost(s, r.prefix, i) && u == GivenRouter(s, i, r.rid)
  }

  /** The host's subnet `i` leads elsewhere and cannot stand beside `r`. */
  ghost predicate ClashAt(s: seq<Route>, r: Route, i: nat) {
    && Foremost(s, r.prefix, i) && !Known(s, r) && s[i].rid != 0
    && (s[i].mask == r.mask || r.rid != 0)
  }

  /** The same for the way back, which no subnet with a router lets in. */
  ghost predicate ClashBackAt(s: seq<Route>, r: Route, i: nat) {
    Foremost(s, r.prefix, i) && !Known(s, r) && s[i].rid != 0
  }

  lemma FirstsAgree(s: seq<Route>, r: Route)
    ensures Has(s, r) <==> Known(s, r)
    ensures FirstWithPrefix(s, r.prefix).None? <==> NewPrefix(s, r.prefix)
    ensures forall i: nat :: Foremost(s, r.prefix, i) <==> FirstWithPrefix(s, r.prefix) == Some(i)
  {
  }

  lemma ClashIs(s: seq<Route>, r: Route)
    ensures Clashes(s, r) <==> exists i: nat :: ClashAt(s, r, i)
    ensures ClashesBack(s, r) <==> exists i: nat :: ClashBackAt(s, r, i)
  {
    FirstsAgree(s, r);
    hide FirstWithPrefix, Has, Known, NewPrefix;
    if FirstWithPrefix(s, r.prefix).Some? {
      var i := FirstWithPrefix(s, r.prefix).value;
      assert Clashes(s, r) ==> ClashAt(s, r, i);
      assert ClashesBack(s, r) ==> ClashBackAt(s, r, i);
    }
  }

  lemma LearnedTakesIn(s: seq<Route>, r: Route)
    ensures TakesIn(s, Learned(s, r), r)
  {
    FirstsAgree(s, r);
    if FirstWithPrefix(s, r.prefix).Some? {
      var i := FirstWithPrefix(s, r.prefix).value;
      FirstsAgree(s, s[i]);
      assert FirstSame(s, s[i]) == Some(i);
      hide FirstWithPrefix, FirstSame, Known, NewPrefix;
      assert !Known(s, r) ==> Meets(s, Learned(s, r), r, i);
    }
  }

  lemma LearnedTakesBack(s: seq<Route>, r: Route)
    ensures TakesBack(s, LearnedBack(s, r), r)
  {
    FirstsAgree(s, r);
    hide FirstWithPrefix, FirstSame, Known, NewPrefix;
  }

  /** Who is linked after `host` and `id` were. */
  lemma ConnectedLinks(t: Topo, host: Word, id: Word)
    requires WellFormed(t) && host in t.links
    ensures var u := Connected(t, host, id);
            && LinksOf(u, host) == LinksOf(t, host) + {id} && LinksOf(u, id) == LinksOf(t, id) + {host}
            && (forall x: Word | x != host && x != id :: LinksOf(u, x) == LinksOf(t, x))
            && (forall x: Word :: SubsOf(u, x) == SubsOf(t, x))
  {
  }

  /** The subnets after one route: the host's and, unless it clashed there, those of the router it leads to. */
  lemma RouteAtBothEnds(t: Topo, host: Word, r: Route)
    requires WellFormed(t) && host in t.links
    ensures var u := Took(t, host, r);
            && TakesIn(SubsOf(t, host), SubsOf(u, host), r)
            && (r.rid != 0 && r.rid != host ==>
                  if exists i: nat :: ClashAt(SubsOf(t, host), r, i) then SubsOf(u, r.rid) == SubsOf(t, r.rid)
                  else TakesBack(SubsOf(t, r.rid), SubsOf(u, r.rid), Route(r.prefix, r.mask, r.nextHop, host)))
            && forall x: Word | x != host && (x != r.rid || r.rid == 0) :: SubsOf(u, x) == SubsOf(t, x)
  {
    hide TakesIn, TakesBack, ClashAt, Clashes, ClashesBack, Learned, LearnedBack, Connected, LearnedBackAt;
    TookKeeps(t, host, r);
    LearnedTakesIn(SubsOf(t, host), r);
    ClashIs(SubsOf(t, host), r);
    LearnedTakesBack(SubsOf(t, r.rid), r.(rid := host));
    var l := LearnedAt(t, host, r);
    LearnedAtKeeps(t, host, r);
    assert forall x: Word | x != host :: SubsOf(l, x) == SubsOf(t, x);
    ConnectedLinks(l, host, r.rid);
    ConnectedKeeps(l, host, r.rid);
    LearnedBackAtKeeps(Connected(l, host, r.rid), r.rid, r.(rid := host));
  }

  /** A clash at the host costs it the link to the router behind the subnet it loses. */
  lemma ClashCutsLink(t: Topo, host: Word, r: Route, i: nat)
    requires WellFormed(t) && host in t.links && ClashAt(SubsOf(t, host), r, i)
    ensures Took(t, host, r).links == t.links[host := t.links[host] - {SubsOf(t, host)[i].rid}]
  {
    ClashIs(SubsOf(t, host), r);
    FirstsAgree(SubsOf(t, host), r);
    hide FirstWithPrefix, Has, Known, Learned, LearnedBack, Clashes, ClashesBack;
  }

  /** Without one, a route that leads to a router links both ways; but a clash at that router leaves the link from the
      host only. */
  lemma RouteLinks(t: Topo, host: Word, r: Route)
    requires WellFormed(t) && host in t.links && r.rid != host && forall i: nat :: !ClashAt(SubsOf(t, host), r, i)
    ensures var u := Took(t, host, r);
            if r.rid == 0 then u.links == t.links
            else
              var back := Route(r.prefix, r.mask, r.nextHop, host);
              && LinksOf(u, host) == LinksOf(t, host) + {r.rid}
              && LinksOf(u, r.rid) == (if host != 0 && exists i: nat :: ClashBackAt(SubsOf(t, r.rid), back, i)
                                       then LinksOf(t, r.rid) - {host} else LinksOf(t, r.rid) + {host})
              && forall x: Word | x != host && x != r.rid :: LinksOf(u, x) == LinksOf(t, x)
  {
    var s, back := SubsOf(t, host), r.(rid := host);
    ClashIs(s, r);
    ClashIs(SubsOf(t, r.rid), back);
    hide Learned, LearnedBack, Clashes, ClashesBack, ClashAt, ClashBackAt, Connected;
    var l := LearnedAt(t, host, r);
    LearnedAtKeeps(t, host, r);
    assert l.links == t.links && forall x: Word | x != host :: SubsOf(l, x) == SubsOf(t, x);
    if r.rid != 0 {
      ConnectedLinks(l, host, r.rid);
      assert back == Route(r.prefix, r.mask, r.nextHop, host);
      BackLinks(Connected(l, host, r.rid), r.rid, back);
    }
  }

  lemma BackLinks(t: Topo, con: Word, back: Route)
    requires con in t.links
    ensures var u := LearnedBackAt(t, con, back);
            && LinksOf(u, con) == (if back.rid != 0 && ClashesBack(SubsOf(t, con), back)
                                   then LinksOf(t, con) - {back.rid} else LinksOf(t, con))
            && forall x: Word | x != con :: LinksOf(u, x) == LinksOf(t, x)
  {
    hide LearnedBack, ClashesBack;
  }

  /** A router that names itself is linked with itself. */
  lemma OwnRouteLinks(t: Topo, host: Word, r: Route)
    requires WellFormed(t) && host in t.links && r.rid == host != 0 && forall i: nat :: !ClashAt(SubsOf(t, host), r, i)
    ensures var u := Took(t, host, r);
            && LinksOf(u, host) == LinksOf(t, host) + {host}
            && forall x: Word | x != host :: LinksOf(u, x) == LinksOf(t, x)
  {
    var s := SubsOf(t, host);
    ClashIs(s, r);
    LearnedBackIsLearned(s, r);
    HasNoClash(Learned(s, r), r);
    hide Learned, LearnedBack, Clashes, ClashesBack, ClashAt, Connected, Has;
    LearnedAtKeeps(t, host, r);
    ConnectedLinks(LearnedAt(t, host, r), host, host);
  }

  lemma HasNoClash(s: seq<Route>, r: Route)
    requires Has(s, r)
    ensures !ClashesBack(s, r)
  {
  }
}

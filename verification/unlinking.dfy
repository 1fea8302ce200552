/** What becomes of the subnets at both ends when a link is withdrawn: by an LSU that leaves it out, by a neighbour gone
    silent, and by a router that expires. */
module Unlinking {
  import opened Database
  import opened Hellos
  import opened Records
  import opened Routers
  import opened Withdrawal

  /** The number of subnets that lead to router `id`. */
  function LeadingTo(s: seq<Route>, id: Word): nat {
    if s == [] then 0 else LeadingTo(s[..|s| - 1], id) + if s[|s| - 1].rid == id then 1 else 0
  }

  /** `u` is `s` without the first subnet that leads to router `id`, whose place the last one takes; it is `s` when no
      subnet leads there. */
  ghost predicate LosesFirst(s: seq<Route>, u: seq<Route>, id: Word) {
    if forall r | r in s :: r.rid != id then u == s
    else exists i :: 0 <= i < |s| && s[i].rid == id && (forall k | 0 <= k < i :: s[k].rid != id)
                     && u == s[i := s[|s| - 1]][..|s| - 1]
  }

  /** `u` is `s` without some of the subnets that lead to router `id`. */
  ghost predicate LosesOnlyThose(s: seq<Route>, u: seq<Route>, id: Word) {
    && multiset(u) <= multiset(s)
    && forall r: Route | r.rid != id :: multiset(u)[r] == multiset(s)[r]
  }

  /** `n` taken away, or all there is. */
  function Less(k: nat, n: nat): nat {
    if n <= k then k - n else 0
  }

  lemma RemoveFirstLosesFirst(s: seq<Route>, id: Word)
    ensures LosesFirst(s, RemoveFirst(s, id), id)
  {
    if FirstWithRid(s, id).Some? {
      assert s[FirstWithRid(s, id).value] in s;
    }
  }

  lemma {:induction false} NoneLeading(s: seq<Route>, id: Word)
    ensures LeadingTo(s, id) == 0 <==> forall r | r in s :: r.rid != id
  {
    if s != [] {
      var n := |s| - 1;
      NoneLeading(s[..n], id);
      assert s == s[..n] + [s[n]];
    }
  }

  lemma {:induction false} LeadingInBoth(a: seq<Route>, b: seq<Route>, id: Word)
    ensures LeadingTo(a + b, id) == LeadingTo(a, id) + LeadingTo(b, id)
  {
    if b == [] {
      assert a + b == a;
    } else {
      var n := |b| - 1;
      LeadingInBoth(a, b[..n], id);
      assert (a + b)[..|a + b| - 1] == a + b[..n];
    }
  }

  lemma LeadingInOne(r: Route, id: Word)
    ensures LeadingTo([r], id) == if r.rid == id then 1 else 0
  {
    assert [r][..0] == [];
  }

  lemma LeadingAfterSwap(s: seq<Route>, i: nat, id: Word)
    requires i < |s|
    ensures LeadingTo(SwapRemove(s, i), id) == LeadingTo(s, id) - if s[i].rid == id then 1 else 0
  {
    hide LeadingTo;
    var n := |s| - 1;
    var (a, b) := (s[..i], s[i + 1..]);
    assert s == a + ([s[i]] + b);
    LeadingInBoth(a, [s[i]] + b, id);
    LeadingInBoth([s[i]], b, id);
    LeadingInOne(s[i], id);
    if i == n {
      assert SwapRemove(s, i) == a + b;
      LeadingInBoth(a, b, id);
    } else {
      var c := s[i + 1..n];
      assert b == c + [s[n]] && SwapRemove(s, i) == a + ([s[n]] + c);
      LeadingInBoth(c, [s[n]], id);
      LeadingInBoth(a, [s[n]] + c, id);
      LeadingInBoth([s[n]], c, id);
    }
  }

  /** One of the subnets leading to a router goes, if there is one, and no other. */
  lemma FirstLost(s: seq<Route>, id: Word)
    ensures var u := RemoveFirst(s, id);
            && LosesOnlyThose(s, u, id) && LeadingTo(u, id) == Less(LeadingTo(s, id), 1)
            && forall z: Word | z != id :: LeadingTo(u, z) == LeadingTo(s, z)
  {
    NoneLeading(s, id);
    match FirstWithRid(s, id)
    case None =>
    case Some(i) =>
      SwapRemoveTakesOne(s, i);
      assert s[i] in s;
      forall z: Word
        ensures LeadingTo(SwapRemove(s, i), z) == LeadingTo(s, z) - if s[i].rid == z then 1 else 0
      {
        LeadingAfterSwap(s, i, z);
      }
  }

  lemma LosesFurther(s: seq<Route>, u: seq<Route>, v: seq<Route>, id: Word)
    requires LosesOnlyThose(s, u, id) && LosesOnlyThose(u, v, id)
    ensures LosesOnlyThose(s, v, id)
  {
  }

  // ---- one link ----

  /** Withdrawing the subnet of `host` that leads to `id` also takes the first subnet leading back from the other
      router. Nobody else's subnets change. */
  lemma WithdrawnAtBothEnds(t: Topo, host: Word, id: Word)
    requires WellFormed(t) && host in t.links && id in t.links && id != host
    ensures var u := WithdrawnAt(t, host, id);
            && LosesFirst(SubsOf(t, host), SubsOf(u, host), id)
            && LosesFirst(SubsOf(t, id), SubsOf(u, id), host)
            && forall z: Word | z != host && z != id :: SubsOf(u, z) == SubsOf(t, z)
  {
    RemoveFirstLosesFirst(SubsOf(t, host), id);
    RemoveFirstLosesFirst(SubsOf(t, id), host);
    hide RemoveFirst, LosesFirst;
  }

  /** A subnet that leads to a router not in the database, or to no router, goes from the host alone. */
  lemma WithdrawnAtOneEnd(t: Topo, host: Word, id: Word)
    requires WellFormed(t) && host in t.links && id !in t.links
    ensures var u := WithdrawnAt(t, host, id);
            && LosesFirst(SubsOf(t, host), SubsOf(u, host), id) && u.links == t.links
            && forall z: Word | z != host :: SubsOf(u, z) == SubsOf(t, z)
  {
    RemoveFirstLosesFirst(SubsOf(t, host), id);
    hide RemoveFirst, LosesFirst;
  }

  /** A host that is its own neighbour loses two of its subnets that lead to itself. */
  lemma WithdrawnAtSelf(t: Topo, host: Word)
    requires WellFormed(t) && host in t.links
    ensures var u := WithdrawnAt(t, host, host);
            && (exists mid :: LosesFirst(SubsOf(t, host), mid, host) && LosesFirst(mid, SubsOf(u, host), host))
            && (forall z: Word | z != host :: SubsOf(u, z) == SubsOf(t, z))
            && LinksOf(u, host) == LinksOf(t, host) - {host}
  {
    var s := SubsOf(t, host);
    RemoveFirstLosesFirst(s, host);
    RemoveFirstLosesFirst(RemoveFirst(s, host), host);
    hide RemoveFirst, LosesFirst;
  }

  /** The same in numbers: what `z` has of subnets leading to `host` after one withdrawal. */
  lemma WithdrawnCounts(t: Topo, host: Word, id: Word, z: Word)
    requires WellFormed(t) && host in t.links && z in t.links && z != host
    ensures var u := WithdrawnAt(t, host, id);
            && LosesOnlyThose(SubsOf(t, z), SubsOf(u, z), host)
            && LeadingTo(SubsOf(u, z), host) == Less(LeadingTo(SubsOf(t, z), host), if id == z then 1 else 0)
            && LeadingTo(SubsOf(u, host), z) == Less(LeadingTo(SubsOf(t, host), z), if id == z then 1 else 0)
  {
    FirstLost(SubsOf(t, host), id);
    FirstLost(SubsOf(t, z), host);
    if id == host {
      FirstLost(RemoveFirst(SubsOf(t, host), id), host);
    }
    hide RemoveFirst, LeadingTo;
  }

  // ---- an LSU ----

  /** The subnets of `host` leading to `z` that are gone, `n` of them, are gone from `z` as well: `z` has that many
      fewer that lead back, as far as it had any, and all its others. */
  ghost predicate UnlinkedBy(t: Topo, u: Topo, host: Word, z: Word, n: nat) {
    && LeadingTo(SubsOf(u, host), z) == Less(LeadingTo(SubsOf(t, host), z), n)
    && LeadingTo(SubsOf(u, z), host) == Less(LeadingTo(SubsOf(t, z), host), n)
    && LosesOnlyThose(SubsOf(t, z), SubsOf(u, z), host)
  }

  lemma UnlinkedFurther(t: Topo, u: Topo, v: Topo, host: Word, z: Word, m: nat, n: nat)
    requires UnlinkedBy(t, u, host, z, m) && UnlinkedBy(u, v, host, z, n)
    ensures UnlinkedBy(t, v, host, z, m + n)
  {
    LosesFurther(SubsOf(t, z), SubsOf(u, z), SubsOf(v, z), host);
    hide SubsOf, LeadingTo, LosesOnlyThose;
  }

  lemma NothingUnlinked(t: Topo, host: Word, z: Word)
    ensures UnlinkedBy(t, t, host, z, 0)
  {
  }

  lemma OneUnlinked(t: Topo, host: Word, i: nat, z: Word)
    requires WellFormed(t) && host in t.links && z in t.links && z != host && i < |SubsOf(t, host)|
    ensures var id := SubsOf(t, host)[i].rid;
            var u := WithdrawnAt(t, host, id);
            && UnlinkedBy(t, u, host, z, if id == z then 1 else 0) && WellFormed(u) && host in u.links && z in u.links
            && |SubsOf(u, host)| < |SubsOf(t, host)| && (id == z ==> 0 < LeadingTo(SubsOf(t, host), z))
  {
    hide WellFormed, Apart, Withdraw, WithdrawnAt, LosesOnlyThose;
    var id := SubsOf(t, host)[i].rid;
    assert SubsOf(t, host)[i] in SubsOf(t, host);
    WithdrawnSubs(t, host, id);
    WithdrawnShrinks(t, host, id);
    WithdrawnCounts(t, host, id, z);
    NoneLeading(SubsOf(t, host), id);
  }

  /** The loop of add_to_top takes as many subnets from the other end as from the host. */
  lemma {:induction false} PrunedAtBothEnds(t: Topo, host: Word, i: nat, advs: seq<Route>, z: Word) returns (n: nat)
    requires WellFormed(t) && host in t.links && z in t.links && z != host
    ensures n <= LeadingTo(SubsOf(t, host), z) && UnlinkedBy(t, Pruned(t, host, i, advs), host, z, n)
    ensures 0 < n ==> Apart(Pruned(t, host, i, advs), host, z)
    decreases |SubsOf(t, host)|, |SubsOf(t, host)| - i
  {
    hide WellFormed, Advertised, Withdraw, WithdrawnAt, Pruned, LeadingTo, UnlinkedBy, Apart;
    PrunedAt(t, host, i, advs);
    var s := SubsOf(t, host);
    if i >= |s| {
      NothingUnlinked(t, host, z);
      n := 0;
    } else if Advertised(s[i], advs) {
      n := PrunedAtBothEnds(t, host, i + 1, advs, z);
    } else {
      var id := s[i].rid;
      var u := WithdrawnAt(t, host, id);
      var k := if id == z then 1 else 0;
      OneUnlinked(t, host, i, z);
      var m := PrunedAtBothEnds(u, host, i, advs, z);
      FewerLeft(t, u, host, z, k, m);
      n := k + m;
      UnlinkedFurther(t, u, Pruned(u, host, i, advs), host, z, k, m);
      if id == z {
        WithdrawnShrinks(t, host, id);
        StaysApart(u, host, i, advs, z);
      }
    }
  }

  lemma StaysApart(t: Topo, host: Word, i: nat, advs: seq<Route>, z: Word)
    requires WellFormed(t) && host in t.links && Apart(t, host, z)
    ensures Apart(Pruned(t, host, i, advs), host, z)
  {
    hide WellFormed, SubsOf, LinksOf;
    PrunedShrinks(t, host, i, advs);
    assert LinksOf(Pruned(t, host, i, advs), host) <= LinksOf(t, host);
    assert LinksOf(Pruned(t, host, i, advs), z) <= LinksOf(t, z);
  }

  lemma FewerLeft(t: Topo, u: Topo, host: Word, z: Word, k: nat, m: nat)
    requires UnlinkedBy(t, u, host, z, k) && k <= LeadingTo(SubsOf(t, host), z) && m <= LeadingTo(SubsOf(u, host), z)
    ensures k + m <= LeadingTo(SubsOf(t, host), z)
  {
  }

  /** Past start-up an LSU takes as many subnets from every other router as its host loses that lead there, and those
      lead back to the host. During start-up nothing is withdrawn. */
  lemma LsuAtBothEnds(t: Topo, host: Word, routes: seq<Route>, z: Word) returns (n: nat)
    requires WellFormed(t) && z in AfterLsu(t, host, routes, false).links && z != host
    ensures UnlinkedBy(AfterLsu(t, host, routes, false), AfterLsu(t, host, routes, true), host, z, n)
    ensures n <= LeadingTo(SubsOf(AfterLsu(t, host, routes, false), host), z)
    ensures 0 < n ==> Apart(AfterLsu(t, host, routes, true), host, z)
  {
    hide WellFormed, SubsOf, TookAll, Pruned, Added, UnlinkedBy, LeadingTo, Apart;
    AfterLsuWellFormed(t, host, routes, false);
    n := PrunedAtBothEnds(AfterLsu(t, host, routes, false), host, 0, routes, z);
  }

  lemma LeadingAfterUpdate(s: seq<Route>, i: nat, r: Route, id: Word)
    requires i < |s| && s[i].rid != id && r.rid != id
    ensures LeadingTo(s[i := r], id) == LeadingTo(s, id)
  {
    hide LeadingTo;
    var (a, b) := (s[..i], s[i + 1..]);
    assert s == a + ([s[i]] + b) && s[i := r] == a + ([r] + b);
    LeadingInBoth(a, [s[i]] + b, id);
    LeadingInBoth(a, [r] + b, id);
    LeadingInBoth([s[i]], b, id);
    LeadingInBoth([r], b, id);
    LeadingInOne(s[i], id);
    LeadingInOne(r, id);
  }

  lemma LearnedElsewhere(s: seq<Route>, route: Route, z: Word)
    requires !Clashes(s, route) && route.rid != z && z != 0
    ensures LeadingTo(Learned(s, route), z) == LeadingTo(s, z)
  {
    hide LeadingTo;
    if !Has(s, route) {
      var place := FirstWithPrefix(s, route.prefix);
      if place.Some? && s[place.value].mask == route.mask {
        LeadingAfterUpdate(s, place.value, s[place.value].(rid := route.rid), z);
      } else {
        LeadingInBoth(s, [route], z);
        LeadingInOne(route, z);
      }
    }
  }

  /** A route changes the subnets of its host and of the router it leads to only. */
  lemma TookElsewhere(t: Topo, host: Word, route: Route, z: Word)
    requires host in t.links && z in t.links && z != host && z != route.rid
    ensures z in Took(t, host, route).links && SubsOf(Took(t, host, route), z) == SubsOf(t, z)
  {
    hide Clashes, ClashesBack, Learned, LearnedBack;
    TookKeeps(t, host, route);
  }

  lemma {:induction false} TookAllElsewhere(t: Topo, host: Word, routes: seq<Route>, z: Word)
    requires host in t.links && z in t.links && z != host && z != 0 && Clean(t, host, routes)
    requires forall k | 0 <= k < |routes| :: routes[k].rid != z
    ensures var u := TookAll(t, host, routes);
            && z in u.links && SubsOf(u, z) == SubsOf(t, z)
            && LeadingTo(SubsOf(u, host), z) == LeadingTo(SubsOf(t, host), z)
  {
    hide SubsOf, Took, Learned, Clashes, Clean, LeadingTo;
    if routes != [] {
      var n := |routes| - 1;
      var u := TookAll(t, host, routes[..n]);
      CleanPrefix(t, host, routes);
      TookAllElsewhere(t, host, routes[..n], z);
      TookAllKeeps(t, host, routes[..n]);
      TookElsewhere(u, host, routes[n], z);
      TookKeeps(u, host, routes[n]);
      LearnedElsewhere(SubsOf(u, host), routes[n], z);
    }
  }

  lemma NoneLeadsThere(s: seq<Route>, advs: seq<Route>, z: Word)
    requires (forall r | r in s :: Advertised(r, advs)) && forall k | 0 <= k < |advs| :: advs[k].rid != z
    ensures LeadingTo(s, z) == 0
  {
    NoneLeading(s, z);
  }

  /** A link that an LSU leaves out is gone from both ends: no subnet of the host leads to `z` any more, `z` has lost as
      many that led back, as far as it had any, and nothing else. */
  lemma UnadvertisedLinkGoes(t: Topo, host: Word, routes: seq<Route>, z: Word)
    requires WellFormed(t) && z in t.links && z != host && z != 0 && Clean(Added(t, host), host, routes)
    requires Unmixed(LearnedAll(SubsOf(t, host), routes), routes)
    requires forall k | 0 <= k < |routes| :: routes[k].rid != z
    ensures var u, n := AfterLsu(t, host, routes, true), LeadingTo(SubsOf(t, host), z);
            && LeadingTo(SubsOf(u, host), z) == 0 && UnlinkedBy(t, u, host, z, n)
            && (0 < n ==> Apart(u, host, z))
  {
    hide WellFormed, SubsOf, TookAll, Pruned, Added, LeadingTo, Apart, Clean, Unmixed, LearnedAll, Prune,
         LosesOnlyThose, Advertised;
    var v := Added(t, host);
    AddedGrows(t, host);
    TookAllElsewhere(v, host, routes, z);
    AfterLsuHost(t, host, routes, true);
    PruneExact(LearnedAll(SubsOf(t, host), routes), 0, routes, host);
    NoneLeadsThere(SubsOf(AfterLsu(t, host, routes, true), host), routes, z);
    var n := LsuAtBothEnds(t, host, routes, z);
    SameLoss(t, AfterLsu(t, host, routes, false), AfterLsu(t, host, routes, true), host, z, n);
  }

  lemma SameLoss(t: Topo, w: Topo, u: Topo, host: Word, z: Word, n: nat)
    requires UnlinkedBy(w, u, host, z, n) && n <= LeadingTo(SubsOf(w, host), z) && LeadingTo(SubsOf(u, host), z) == 0
    requires SubsOf(w, z) == SubsOf(t, z) && LeadingTo(SubsOf(w, host), z) == LeadingTo(SubsOf(t, host), z)
    ensures UnlinkedBy(t, u, host, z, LeadingTo(SubsOf(t, host), z)) && n == LeadingTo(SubsOf(t, host), z)
  {
  }

  // ---- neighbours gone silent ----

  /** How many of the neighbours from place `i` on have gone silent and have id `z`. */
  function Silent(ns: seq<Neighbor>, i: nat, z: Word, now: int): nat
    decreases |ns| - i
  {
    if i >= |ns| then 0
    else Silent(ns, i + 1, z, now) + if ns[i].id == z && ns[i].timeNotValid < now then 1 else 0
  }

  lemma {:induction false} SilentAfterSwap(ns: seq<Neighbor>, k: nat, i: nat, z: Word, now: int)
    requires k <= i < |ns|
    ensures Silent(SwapRemove(ns, i), k, z, now) ==
            Silent(ns, k, z, now) - if ns[i].id == z && ns[i].timeNotValid < now then 1 else 0
    decreases i - k
  {
    if k < i {
      SilentAfterSwap(ns, k + 1, i, z, now);
    } else {
      SilentButLast(ns, i + 1, SwapRemove(ns, i), z, now);
    }
  }

  /** From place `i` on, `rest` is `ns` without its last neighbour. */
  lemma {:induction false} SilentButLast(ns: seq<Neighbor>, i: nat, rest: seq<Neighbor>, z: Word, now: int)
    requires 0 < i <= |ns| && |rest| == |ns| - 1 && forall k | i <= k < |rest| :: rest[k] == ns[k]
    ensures Silent(ns, i, z, now) == Silent(rest, i, z, now)
            + if i < |ns| && ns[|ns| - 1].id == z && ns[|ns| - 1].timeNotValid < now then 1 else 0
    decreases |ns| - i
  {
    if i < |ns| - 1 {
      SilentButLast(ns, i + 1, rest, z, now);
    }
  }

  lemma SweptAtOne(t: Topo, me: Word, n: Neighbor, z: Word)
    requires WellFormed(t) && me in t.links && z in t.links && z != me
    ensures var u := WithdrawnAt(t, me, n.id);
            && UnlinkedBy(t, u, me, z, if n.id == z then 1 else 0) && WellFormed(u) && me in u.links && z in u.links
  {
    hide WellFormed, WithdrawnAt, LosesOnlyThose, Apart;
    WithdrawnShrinks(t, me, n.id);
    WithdrawnCounts(t, me, n.id, z);
  }

  /** The sweep takes a subnet at either end for every neighbour gone silent with that id, as far as there are any, and
      no other subnet. */
  lemma {:induction false} SweptAtBothEnds(t: Topo, me: Word, ns: seq<Neighbor>, i: nat, now: int, z: Word)
    requires WellFormed(t) && me in t.links && z in t.links && z != me
    ensures UnlinkedBy(t, SweptTopo(t, me, ns, i, now), me, z, Silent(ns, i, z, now))
    decreases |ns|, |ns| - i
  {
    hide WellFormed, WithdrawnAt, UnlinkedBy, LeadingTo;
    SweptTopoAt(t, me, ns, i, now);
    if i >= |ns| {
      NothingUnlinked(t, me, z);
    } else if ns[i].timeNotValid < now {
      var u, rest := WithdrawnAt(t, me, ns[i].id), SwapRemove(ns, i);
      SweptAtOne(t, me, ns[i], z);
      SilentAfterSwap(ns, i, i, z, now);
      SweptAtBothEnds(u, me, rest, i, now, z);
      hide SweptTopo, Silent;
      UnlinkedFurther(t, u, SweptTopo(u, me, rest, i, now), me, z, if ns[i].id == z then 1 else 0,
        Silent(rest, i, z, now));
    } else {
      SweptAtBothEnds(t, me, ns, i + 1, now, z);
    }
  }

  // ---- routers that expire ----

  /** A router that stays loses its first subnet leading to one that is dropped. */
  lemma DroppedAtOthers(t: Topo, id: Word, x: Word)
    requires x in t.subnets && x != id
    ensures LosesFirst(SubsOf(t, x), SubsOf(Dropped(t, id), x), id)
  {
    RemoveFirstLosesFirst(SubsOf(t, x), id);
    hide RemoveFirst, LosesFirst;
  }

  /** A router that stays loses one subnet leading to each router dropped, if it has one, and keeps all others. */
  ghost predicate LosesOneEach(s: seq<Route>, u: seq<Route>, ids: set<Word>) {
    && multiset(u) <= multiset(s)
    && (forall r: Route | r.rid !in ids :: multiset(u)[r] == multiset(s)[r])
    && forall z: Word :: LeadingTo(u, z) == Less(LeadingTo(s, z), if z in ids then 1 else 0)
  }

  lemma LosesOneMore(s: seq<Route>, u: seq<Route>, ids: set<Word>, id: Word)
    requires LosesOneEach(s, u, ids) && id !in ids
    ensures LosesOneEach(s, RemoveFirst(u, id), ids + {id})
  {
    FirstLost(u, id);
    hide LeadingTo, RemoveFirst;
  }

  lemma {:induction false} DroppedAllAtOthers(t: Topo, ids: seq<Word>, x: Word)
    requires WellFormed(t) && x in t.subnets && x !in ids && AllDistinct(ids)
    ensures x in DroppedAll(t, ids).subnets
    ensures LosesOneEach(SubsOf(t, x), SubsOf(DroppedAll(t, ids), x), Elements(ids))
  {
    hide LosesOneEach, WellFormed, RemoveFirst;
    OneMoreElement(ids);
    if ids == [] {
      NothingLost(SubsOf(t, x));
    } else {
      var n := |ids| - 1;
      DroppedAllAtOthers(t, ids[..n], x);
      LosesOneMore(SubsOf(t, x), SubsOf(DroppedAll(t, ids[..n]), x), Elements(ids[..n]), ids[n]);
    }
  }

  lemma NothingLost(s: seq<Route>)
    ensures LosesOneEach(s, s, {})
  {
  }
}

/** The loop of add_to_top that withdraws the subnets an LSU no longer advertises, as a function of
    the host's subnets, and when it withdraws exactly those. */
module Withdrawal {
  import opened Records
  import opened Routers

  predicate Advertised(s: Route, advs: seq<Route>) {
    exists k :: 0 <= k < |advs| && SameSubnet(s, advs[k])
  }

  /** The advertisements of an LSU: the router's subnets in order, then the static routes, which have no
      router attached. */
  function AdvertList(subnets: seq<Route>, statics: seq<Route>): seq<Route> {
    seq(|subnets|, i requires 0 <= i < |subnets| => Route(subnets[i].prefix, subnets[i].mask, 0, subnets[i].rid))
    + seq(|statics|, i requires 0 <= i < |statics| => Route(statics[i].prefix, statics[i].mask, 0, 0))
  }

  /** The subnets come first, each in its place and without its next hop, then the static routes, without a router. */
  lemma AdvertListInOrder(subnets: seq<Route>, statics: seq<Route>)
    ensures var advs := AdvertList(subnets, statics);
            && |advs| == |subnets| + |statics|
            && (forall k | 0 <= k < |subnets| ::
                  SameSubnet(advs[k], subnets[k]) && advs[k].nextHop == 0)
            && (forall k | |subnets| <= k < |advs| ::
                  && advs[k].prefix == statics[k - |subnets|].prefix && advs[k].mask == statics[k - |subnets|].mask
                  && advs[k].nextHop == 0 && advs[k].rid == 0)
  {
  }

  /** An LSU advertises the router's subnets and its static routes, and nothing else. */
  lemma AdvertListIsExact(subnets: seq<Route>, statics: seq<Route>, s: Route)
    ensures Advertised(s, AdvertList(subnets, statics)) <==>
            || (exists k :: 0 <= k < |subnets| && SameSubnet(s, subnets[k]))
            || (exists k :: 0 <= k < |statics| && SameSubnet(s, statics[k].(rid := 0)))
  {
    var advs := AdvertList(subnets, statics);
    forall k | 0 <= k < |subnets| && SameSubnet(s, subnets[k])
      ensures Advertised(s, advs)
    {
      assert SameSubnet(s, advs[k]);
    }
    forall k | 0 <= k < |statics| && SameSubnet(s, statics[k].(rid := 0))
      ensures Advertised(s, advs)
    {
      assert SameSubnet(s, advs[|subnets| + k]);
    }
    if Advertised(s, advs) {
      var k :| 0 <= k < |advs| && SameSubnet(s, advs[k]);
      if k < |subnets| {
        assert SameSubnet(s, subnets[k]);
      } else {
        assert SameSubnet(s, statics[k - |subnets|].(rid := 0));
      }
    }
  }

  /** What removing the first subnet with the given id leaves; the host's own id is removed twice,
      because the host is then its own neighbour. */
  function Withdraw(s: seq<Route>, id: Word, host: Word): (r: seq<Route>)
    ensures FirstWithRid(s, id).Some? ==> |r| < |s|
    ensures multiset(r) <= multiset(s)
  {
    RemoveFirstShrinks(s, id);
    RemoveFirstShrinks(RemoveFirst(s, id), host);
    if id == host then RemoveFirst(RemoveFirst(s, id), host) else RemoveFirst(s, id)
  }

  lemma RemoveFirstShrinks(s: seq<Route>, id: Word)
    ensures |RemoveFirst(s, id)| <= |s| && multiset(RemoveFirst(s, id)) <= multiset(s)
    ensures FirstWithRid(s, id).Some? ==>
              && |RemoveFirst(s, id)| < |s|
              && multiset(RemoveFirst(s, id)) == multiset(s) - multiset{s[FirstWithRid(s, id).value]}
  {
    match FirstWithRid(s, id)
    case None =>
    case Some(i) => SwapRemoveTakesOne(s, i);
  }

  /** The loop from place `i` on: an unadvertised subnet is withdrawn by its router id and the place
      is looked at again. */
  function Prune(s: seq<Route>, i: nat, advs: seq<Route>, host: Word): (r: seq<Route>)
    ensures multiset(r) <= multiset(s)
    decreases |s|, |s| - i
  {
    if i >= |s| then s
    else if Advertised(s[i], advs) then Prune(s, i + 1, advs, host)
    else Prune(Withdraw(s, s[i].rid, host), i, advs, host)
  }

  /** No advertised subnet shares its router id with an unadvertised one; so it is, in particular,
      when the router ids are distinct. */
  ghost predicate Unmixed(s: seq<Route>, advs: seq<Route>) {
    forall a, u | a in s && u in s && Advertised(a, advs) && !Advertised(u, advs) :: a.rid != u.rid
  }

  /** The loop has kept exactly the advertised subnets. */
  ghost predicate Exact(before: seq<Route>, after: seq<Route>, advs: seq<Route>) {
    && (forall s | s in after :: Advertised(s, advs))
    && (forall s | Advertised(s, advs) :: multiset(after)[s] == multiset(before)[s])
  }

  lemma {:induction false} PruneExact(s: seq<Route>, i: nat, advs: seq<Route>, host: Word)
    requires Unmixed(s, advs) && i <= |s| && forall k | 0 <= k < i :: Advertised(s[k], advs)
    ensures Exact(s, Prune(s, i, advs, host), advs)
    decreases |s|, |s| - i
  {
    hide Advertised;
    if i == |s| {
    } else if Advertised(s[i], advs) {
      PruneExact(s, i + 1, advs, host);
    } else {
      var t := Withdraw(s, s[i].rid, host);
      WithdrawSparesAdvertised(s, i, advs, host);
      PruneExact(t, i, advs, host);
    }
  }

  lemma WithdrawSparesAdvertised(s: seq<Route>, i: nat, advs: seq<Route>, host: Word)
    requires Unmixed(s, advs) && i < |s| && !Advertised(s[i], advs) && forall k | 0 <= k < i :: Advertised(s[k], advs)
    ensures var t := Withdraw(s, s[i].rid, host);
            && |t| < |s| && i <= |t| && Unmixed(t, advs)
            && (forall k | 0 <= k < i :: Advertised(t[k], advs))
            && (forall x | Advertised(x, advs) :: multiset(t)[x] == multiset(s)[x])
  {
    hide Advertised;
    var id := s[i].rid;
    RemoveOneUnadvertised(s, i, id, advs);
    var t := RemoveFirst(s, id);
    if id == host {
      if FirstWithRid(t, host).Some? {
        var j := FirstWithRid(t, host).value;
        assert t[j] in s && s[i] in s;
        RemoveOneUnadvertised(t, i, host, advs);
      }
    }
  }

  lemma RemoveOneUnadvertised(s: seq<Route>, i: nat, id: Word, advs: seq<Route>)
    requires Unmixed(s, advs) && i <= |s| && (forall k | 0 <= k < i :: Advertised(s[k], advs))
    requires FirstWithRid(s, id).Some? && exists u | u in s :: u.rid == id && !Advertised(u, advs)
    ensures var t := RemoveFirst(s, id);
            && |t| < |s| && i <= |t| && Unmixed(t, advs) && (forall x | x in t :: x in s)
            && (forall k | 0 <= k < i :: Advertised(t[k], advs))
            && (forall x | Advertised(x, advs) :: multiset(t)[x] == multiset(s)[x])
  {
    hide Advertised;
    var j := FirstWithRid(s, id).value;
    assert s[j] in s && !Advertised(s[j], advs);
    RemoveFirstShrinks(s, id);
    var t := RemoveFirst(s, id);
    forall x | x in t
      ensures x in s
    {
      assert x in multiset(t) && x in multiset(s);
    }
  }

  lemma PruneAt(s: seq<Route>, i: nat, advs: seq<Route>, host: Word)
    requires i < |s|
    ensures Prune(s, i, advs, host) ==
            if Advertised(s[i], advs) then Prune(s, i + 1, advs, host)
            else Prune(Withdraw(s, s[i].rid, host), i, advs, host)
  {
  }

  lemma PruneEnd(s: seq<Route>, i: nat, advs: seq<Route>, host: Word)
    requires |s| <= i
    ensures Prune(s, i, advs, host) == s
  {
  }

  /** In this order the loop withdraws an advertised subnet in place of the unadvertised one. */
  lemma MixedLosesAdvertised(a: Route, u: Route, rest: seq<Route>, advs: seq<Route>, host: Word)
    requires Advertised(a, advs) && !Advertised(u, advs) && a.rid == u.rid
    ensures var t := [a, u] + rest; multiset(Prune(t, 0, advs, host))[a] < multiset(t)[a]
  {
    hide Advertised, Prune, Withdraw;
    var t := [a, u] + rest;
    PruneAt(t, 0, advs, host);
    PruneAt(t, 1, advs, host);
    WithdrawTakesFirst(t, host);
    assert multiset(Prune(t, 0, advs, host)) <= multiset(Withdraw(t, u.rid, host));
  }

  lemma WithdrawTakesFirst(t: seq<Route>, host: Word)
    requires t != []
    ensures multiset(Withdraw(t, t[0].rid, host))[t[0]] < multiset(t)[t[0]]
  {
    RemoveFirstShrinks(t, t[0].rid);
    RemoveFirstShrinks(RemoveFirst(t, t[0].rid), host);
    assert t[0] in multiset(t);
  }

  /** The loop keeps exactly the advertised subnets, in whatever order they are stored, if and only if
      no advertised and unadvertised subnet share a router id. */
  lemma ExactInEveryOrder(s: seq<Route>, advs: seq<Route>, host: Word)
    ensures Unmixed(s, advs) <==>
            forall t: seq<Route> | multiset(t) == multiset(s) :: Exact(t, Prune(t, 0, advs, host), advs)
  {
    hide Advertised, Prune, Exact;
    if Unmixed(s, advs) {
      forall t: seq<Route> | multiset(t) == multiset(s)
        ensures Exact(t, Prune(t, 0, advs, host), advs)
      {
        forall x | x in t
          ensures x in s
        {
          assert x in multiset(t);
        }
        PruneExact(t, 0, advs, host);
      }
    } else {
      var a, u :| a in s && u in s && Advertised(a, advs) && !Advertised(u, advs) && a.rid == u.rid;
      var t := BringToFront(s, a, u);
      MixedLosesAdvertised(a, u, t[2..], advs, host);
      assert t == [a, u] + t[2..];
      NotExact(t, a, Prune(t, 0, advs, host), advs);
    }
  }

  lemma NotExact(t: seq<Route>, a: Route, after: seq<Route>, advs: seq<Route>)
    requires Advertised(a, advs) && multiset(after)[a] < multiset(t)[a]
    ensures !Exact(t, after, advs)
  {
  }

  lemma BringToFront(s: seq<Route>, a: Route, u: Route) returns (t: seq<Route>)
    requires a in s && u in s && a != u
    ensures multiset(t) == multiset(s) && 2 <= |t| && t[0] == a && t[1] == u
  {
    var r := TakeOut(s, a);
    assert u in multiset(s) && u in multiset(r);
    var q := TakeOut(r, u);
    t := [a, u] + q;
    assert multiset(t) == multiset{a, u} + multiset(q);
  }

  lemma TakeOut(s: seq<Route>, a: Route) returns (r: seq<Route>)
    requires a in s
    ensures multiset(s) == multiset(r) + multiset{a}
  {
    var i :| 0 <= i < |s| && s[i] == a;
    SwapRemoveTakesOne(s, i);
    r := SwapRemove(s, i);
  }
}

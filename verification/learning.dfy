/** How a router's copy of another router's subnets comes to match what that router advertises, subnet by subnet:
    also when a subnet is first heard of without the router that turns up behind it later. */
module Learning {
  import opened Records
  import opened Routers
  import opened Withdrawal

  /** Subnets that may be advertised together: two on one prefix have different masks, and one of them has no
      router attached. A route is added beside a subnet on its prefix in this case only. */
  predicate SideBySide(a: Route, b: Route) {
    SameSubnet(a, b) || a.prefix != b.prefix || (a.mask != b.mask && (a.rid == 0 || b.rid == 0))
  }

  ghost predicate Compatible(advs: seq<Route>) {
    forall a, b | a in advs && b in advs :: SideBySide(a, b)
  }

  /** The subnet is advertised with a router, but held without one yet. */
  ghost predicate Expected(r: Route, advs: seq<Route>) {
    r.rid == 0 && exists a | a in advs :: a.rid != 0 && a.prefix == r.prefix && a.mask == r.mask
  }

  /** Subnet `i` comes before all others on its prefix, and those have no router. */
  ghost predicate Leading(s: seq<Route>, i: nat)
    requires i < |s|
  {
    forall j | 0 <= j < |s| && j != i && s[j].prefix == s[i].prefix :: i < j && s[j].rid == 0
  }

  /** Every subnet is advertised, or is one whose router is yet to be heard of. */
  ghost predicate Fits(s: seq<Route>, advs: seq<Route>) {
    forall i | 0 <= i < |s| :: Advertised(s[i], advs) || (Expected(s[i], advs) && Leading(s, i))
  }

  /** An advertised subnet with a router is there, or its place is: the first subnet on its prefix, if there is
      any, has its mask. */
  ghost predicate HasPlaces(s: seq<Route>, advs: seq<Route>) {
    forall a | a in advs && a.rid != 0 :: Has(s, a) || PlaceFor(s, a)
  }

  predicate PlaceFor(s: seq<Route>, a: Route) {
    match FirstWithPrefix(s, a.prefix)
    case None => true
    case Some(i) => s[i].mask == a.mask
  }

  /** `u` continues `s`; a subnet of `s` may only have got its router. */
  ghost predicate Grown(s: seq<Route>, u: seq<Route>, advs: seq<Route>) {
    && |s| <= |u|
    && forall i | 0 <= i < |s| :: u[i] == s[i] || (!Advertised(s[i], advs) && u[i] == s[i].(rid := u[i].rid))
  }

  // ---- what is advertised together ----

  lemma AdvertisedAs(r: Route, advs: seq<Route>) returns (a: Route)
    requires Advertised(r, advs)
    ensures a in advs && SameSubnet(r, a)
  {
    var k :| 0 <= k < |advs| && SameSubnet(r, advs[k]);
    a := advs[k];
  }

  lemma BothAdvertised(advs: seq<Route>, a: Route, b: Route)
    requires Compatible(advs) && Advertised(a, advs) && Advertised(b, advs)
    ensures SideBySide(a, b)
  {
    var c := AdvertisedAs(a, advs);
    var d := AdvertisedAs(b, advs);
    assert SideBySide(c, d);
  }

  /** What is advertised on the prefix of an expected subnet: the subnet with its router, and others without. */
  lemma BesideExpected(advs: seq<Route>, r: Route, b: Route)
    requires Compatible(advs) && Expected(r, advs) && Advertised(b, advs) && b.prefix == r.prefix
    ensures b.mask == r.mask <==> b.rid != 0
  {
    var a :| a in advs && a.rid != 0 && a.prefix == r.prefix && a.mask == r.mask;
    var c := AdvertisedAs(b, advs);
    assert SideBySide(a, c);
  }

  lemma NotBoth(r: Route, advs: seq<Route>)
    requires Compatible(advs) && Advertised(r, advs)
    ensures !Expected(r, advs)
  {
    if Expected(r, advs) {
      BesideExpected(advs, r, r);
    }
  }

  lemma HasAt(s: seq<Route>, i: nat, r: Route)
    requires i < |s| && SameSubnet(s[i], r)
    ensures Has(s, r)
  {
  }

  lemma AdvertisedKept(a: Route, b: Route, advs: seq<Route>)
    requires SameSubnet(a, b)
    ensures Advertised(a, advs) == Advertised(b, advs)
  {
    if Advertised(a, advs) {
      var k :| 0 <= k < |advs| && SameSubnet(a, advs[k]);
      assert SameSubnet(b, advs[k]);
    }
    if Advertised(b, advs) {
      var k :| 0 <= k < |advs| && SameSubnet(b, advs[k]);
      assert SameSubnet(a, advs[k]);
    }
  }

  // ---- taking in an advertised subnet ----

  /** The first subnet on the prefix of a new one either waits for its router, or stands beside it. */
  lemma FirstOnPrefix(s: seq<Route>, advs: seq<Route>, r: Route, i: nat)
    requires Compatible(advs) && Fits(s, advs) && Advertised(r, advs) && !Has(s, r)
    requires FirstWithPrefix(s, r.prefix) == Some(i)
    ensures s[i].mask == r.mask ==> r.rid != 0 && s[i].rid == 0 && !Advertised(s[i], advs) && Leading(s, i)
    ensures s[i].mask != r.mask ==> s[i].rid == 0 || r.rid == 0
    ensures s[i].mask != r.mask && r.rid != 0 ==> Advertised(s[i], advs)
  {
    if Advertised(s[i], advs) {
      BothAdvertised(advs, s[i], r);
      if SameSubnet(s[i], r) {
        HasAt(s, i, r);
      }
    } else {
      BesideExpected(advs, s[i], r);
    }
  }

  lemma AppendFits(s: seq<Route>, advs: seq<Route>, r: Route)
    requires Compatible(advs) && Fits(s, advs) && Advertised(r, advs)
    requires r.rid != 0 && FirstWithPrefix(s, r.prefix).Some? ==>
               Advertised(s[FirstWithPrefix(s, r.prefix).value], advs)
    ensures Fits(s + [r], advs) && Has(s + [r], r)
  {
    var u := s + [r];
    HasAt(u, |s|, r);
    hide Advertised, Expected, Has;
    forall i | 0 <= i < |u|
      ensures Advertised(u[i], advs) || (Expected(u[i], advs) && Leading(u, i))
    {
      if i < |s| {
        assert Leading(s, i) && s[i].prefix == r.prefix ==> FirstWithPrefix(s, r.prefix) == Some(i);
      }
    }
  }

  lemma AttachFits(s: seq<Route>, advs: seq<Route>, r: Route, i: nat)
    requires Compatible(advs) && Fits(s, advs) && Advertised(r, advs) && i < |s| && !Advertised(s[i], advs)
    requires Leading(s, i) && s[i].prefix == r.prefix && s[i].mask == r.mask
    ensures var u := s[i := s[i].(rid := r.rid)]; Fits(u, advs) && Has(u, r) && Grown(s, u, advs)
  {
    var u := s[i := s[i].(rid := r.rid)];
    AdvertisedKept(r, u[i], advs);
    HasAt(u, i, r);
    hide Advertised, Expected, Has;
    forall j | 0 <= j < |u|
      ensures Advertised(u[j], advs) || (Expected(u[j], advs) && Leading(u, j))
    {
      if j != i && !Advertised(s[j], advs) {
        assert Leading(s, j);
      }
    }
  }

  /** Taking in an advertised subnet never clashes; afterwards it is there, and all the others still are. */
  lemma TakenIn(s: seq<Route>, advs: seq<Route>, r: Route)
    requires Compatible(advs) && Fits(s, advs) && Advertised(r, advs)
    ensures !Clashes(s, r) && Has(Learned(s, r), r)
    ensures Fits(Learned(s, r), advs) && Grown(s, Learned(s, r), advs)
  {
    if !Has(s, r) {
      match FirstWithPrefix(s, r.prefix)
      case None =>
        AppendFits(s, advs, r);
      case Some(i) =>
        FirstOnPrefix(s, advs, r, i);
        if s[i].mask == r.mask {
          AttachFits(s, advs, r, i);
        } else {
          AppendFits(s, advs, r);
        }
    }
  }

  /** The way back is taken in just as well where its place has been kept. */
  lemma TakenBack(s: seq<Route>, advs: seq<Route>, r: Route)
    requires Compatible(advs) && Fits(s, advs) && HasPlaces(s, advs) && r in advs && r.rid != 0
    ensures Advertised(r, advs) && !ClashesBack(s, r) && LearnedBack(s, r) == Learned(s, r)
    ensures HasPlaces(Learned(s, r), advs)
  {
    SelfAdvertised(r, advs);
    TakenIn(s, advs, r);
    assert Has(s, r) || PlaceFor(s, r);
    match FirstWithPrefix(s, r.prefix)
    case None =>
      PlacesKept(s, Learned(s, r), advs, r);
    case Some(i) =>
      if !Has(s, r) {
        FirstOnPrefix(s, advs, r, i);
        PlacesKept(s, Learned(s, r), advs, r);
      }
  }

  lemma SelfAdvertised(r: Route, advs: seq<Route>)
    requires r in advs
    ensures Advertised(r, advs)
  {
    var k :| 0 <= k < |advs| && advs[k] == r;
    assert SameSubnet(r, advs[k]);
  }

  /** Places are kept when only `r`, which has a router itself, may have been added. */
  lemma PlacesKept(s: seq<Route>, u: seq<Route>, advs: seq<Route>, r: Route)
    requires Compatible(advs) && HasPlaces(s, advs) && Grown(s, u, advs) && r in advs && r.rid != 0 && Has(u, r)
    requires |u| == |s| || u == s + [r]
    ensures HasPlaces(u, advs)
  {
    forall a | a in advs && a.rid != 0
      ensures Has(u, a) || PlaceFor(u, a)
    {
      if Has(s, a) {
        HasKept(s, u, advs, a);
      } else {
        assert PlaceFor(s, a) && SideBySide(a, r);
        if FirstWithPrefix(s, a.prefix).Some? {
          FirstKept(s, u, advs, a.prefix);
        } else if SameSubnet(a, r) {
          HasAt(u, FirstSame(u, r).value, a);
        }
      }
    }
  }

  lemma HasKept(s: seq<Route>, u: seq<Route>, advs: seq<Route>, a: Route)
    requires Grown(s, u, advs) && Advertised(a, advs) && Has(s, a)
    ensures Has(u, a)
  {
    var i := FirstSame(s, a).value;
    AdvertisedKept(a, s[i], advs);
    HasAt(u, i, a);
  }

  lemma FirstKept(s: seq<Route>, u: seq<Route>, advs: seq<Route>, prefix: Word)
    requires Grown(s, u, advs) && FirstWithPrefix(s, prefix).Some?
    ensures FirstWithPrefix(u, prefix) == FirstWithPrefix(s, prefix)
    ensures u[FirstWithPrefix(u, prefix).value].mask == s[FirstWithPrefix(s, prefix).value].mask
  {
    var i := FirstWithPrefix(s, prefix).value;
    assert forall k | 0 <= k < |s| :: u[k].prefix == s[k].prefix && u[k].mask == s[k].mask;
  }

  lemma GrownFurther(s: seq<Route>, u: seq<Route>, v: seq<Route>, advs: seq<Route>)
    requires Grown(s, u, advs) && Grown(u, v, advs)
    ensures Grown(s, v, advs)
  {
    hide Advertised;
    assert forall i | 0 <= i < |s| :: u[i] == s[i] || u[i] == s[i].(rid := u[i].rid);
  }

  lemma NotLeading(s: seq<Route>, i: nat, a: Route)
    requires i < |s| && s[i].rid == 0 && a.rid != 0 && a.prefix == s[i].prefix && Has(s, a)
    ensures !Leading(s, i)
  {
    assert s[FirstSame(s, a).value].rid != 0;
  }

  /** Once all is there nothing is waiting for its router. */
  lemma NothingExpected(s: seq<Route>, advs: seq<Route>)
    requires Compatible(advs) && Fits(s, advs) && forall a | a in advs :: Has(s, a)
    ensures forall r | r in s :: Advertised(r, advs)
    ensures HasPlaces(s, advs)
  {
    forall i | 0 <= i < |s|
      ensures Advertised(s[i], advs)
    {
      if Expected(s[i], advs) {
        var a :| a in advs && a.rid != 0 && a.prefix == s[i].prefix && a.mask == s[i].mask;
        NotLeading(s, i, a);
      }
    }
  }

  // ---- a router's own subnets ----

  /** The subnets are the router's own, some perhaps without their router yet. */
  ghost predicate OwnSoFar(s: seq<Route>, own: seq<Route>) {
    |s| == |own| && forall i | 0 <= i < |s| :: s[i] == own[i] || s[i] == own[i].(rid := 0)
  }

  ghost predicate AdvertisesOwn(own: seq<Route>, advs: seq<Route>) {
    && (forall r | r in own :: Advertised(r, advs))
    && (forall a | a in advs && a.rid != 0 :: Has(own, a))
  }

  /** One's own subnets only ever get their routers. */
  lemma OwnKept(s: seq<Route>, own: seq<Route>, advs: seq<Route>, r: Route, i: nat)
    requires Compatible(advs) && Fits(s, advs) && AdvertisesOwn(own, advs) && OwnSoFar(s, own) && i < |s|
    requires Advertised(r, advs) && s[i].prefix == r.prefix && s[i].mask == r.mask && s[i].rid == 0
    ensures own[i].rid == r.rid && OwnSoFar(s[i := s[i].(rid := r.rid)], own)
  {
    assert own[i] in own;
    BothAdvertised(advs, own[i], r);
  }

  /** A link of one's own has its place. */
  lemma OwnHasPlace(s: seq<Route>, own: seq<Route>, advs: seq<Route>, a: Route)
    requires Compatible(advs) && Fits(s, advs) && AdvertisesOwn(own, advs) && OwnSoFar(s, own)
    requires a in advs && a.rid != 0
    ensures FirstWithPrefix(s, a.prefix).Some? && (Has(s, a) || PlaceFor(s, a))
  {
    var i := FirstSame(own, a).value;
    if s[i] == own[i] {
      HasAt(s, i, a);
    } else {
      assert Expected(s[i], advs);
      if Advertised(s[i], advs) {
        NotBoth(s[i], advs);
      }
      assert Leading(s, i);
    }
  }

  lemma OwnHasPlaces(s: seq<Route>, own: seq<Route>, advs: seq<Route>)
    requires Compatible(advs) && Fits(s, advs) && AdvertisesOwn(own, advs) && OwnSoFar(s, own)
    ensures HasPlaces(s, advs)
  {
    forall a | a in advs && a.rid != 0
      ensures Has(s, a) || PlaceFor(s, a)
    {
      OwnHasPlace(s, own, advs, a);
    }
  }

  lemma OwnTakenBack(s: seq<Route>, own: seq<Route>, advs: seq<Route>, r: Route)
    requires Compatible(advs) && Fits(s, advs) && AdvertisesOwn(own, advs) && OwnSoFar(s, own)
    requires r in advs && r.rid != 0
    ensures OwnSoFar(Learned(s, r), own)
  {
    SelfAdvertised(r, advs);
    OwnHasPlace(s, own, advs, r);
    if !Has(s, r) {
      var i := FirstWithPrefix(s, r.prefix).value;
      FirstOnPrefix(s, advs, r, i);
      OwnKept(s, own, advs, r, i);
    }
  }

  /** With all routers known the subnets are exactly the router's own. */
  lemma OwnComplete(s: seq<Route>, own: seq<Route>, advs: seq<Route>)
    requires Compatible(advs) && Fits(s, advs) && AdvertisesOwn(own, advs) && OwnSoFar(s, own)
    requires forall a | a in advs && a.rid != 0 :: Has(s, a)
    ensures s == own
  {
    forall i | 0 <= i < |s|
      ensures s[i] == own[i]
    {
      if own[i].rid != 0 && s[i].rid == 0 {
        assert own[i] in own;
        var a := AdvertisedAs(own[i], advs);
        assert Expected(s[i], advs);
        NotLeading(s, i, a);
        NotBoth(s[i], advs);
      }
    }
  }
}

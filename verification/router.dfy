/** One router of the topology: packed arrays of adjacency pointers and subnets, edited in place. */
module Routers {
  import opened Records

  const INIT_ADJLIST_SIZE: nat := 10
  const INIT_SUBNET_SIZE: nat := 10

  /** Overwrites element `i` with the last element and drops the last place. */
  function SwapRemove<T>(s: seq<T>, i: nat): (r: seq<T>)
    requires i < |s|
    ensures |r| == |s| - 1
    ensures forall k | 0 <= k < |r| :: r[k] == if k == i then s[|s| - 1] else s[k]
  {
    s[i := s[|s| - 1]][..|s| - 1]
  }

  lemma SwapRemoveTakesOne<T>(s: seq<T>, i: nat)
    requires i < |s|
    ensures multiset(SwapRemove(s, i)) == multiset(s) - multiset{s[i]}
  {
    var n := |s| - 1;
    assert s == s[..n] + [s[n]];
    if i < n {
      assert s[..n] == s[..i] + [s[i]] + s[i + 1..n];
      assert SwapRemove(s, i) == s[..i] + [s[n]] + s[i + 1..n];
    } else {
      assert SwapRemove(s, i) == s[..n];
    }
  }

  /** The place of the first subnet attached to router `id`. */
  function FirstWithRid(s: seq<Route>, id: Word): (r: Option<nat>)
    ensures r.Some? ==> r.value < |s| && s[r.value].rid == id && forall k | 0 <= k < r.value :: s[k].rid != id
    ensures r.None? ==> forall k | 0 <= k < |s| :: s[k].rid != id
  {
    if s == [] then None
    else if s[0].rid == id then Some(0)
    else match FirstWithRid(s[1..], id)
      case None => None
      case Some(i) => Some(i + 1)
  }

  function RemoveFirst(s: seq<Route>, id: Word): (r: seq<Route>)
  {
    match FirstWithRid(s, id)
    case None => s
    case Some(i) => SwapRemove(s, i)
  }

  /** The place of the first subnet equal to `route` in prefix, mask and router. */
  function FirstSame(s: seq<Route>, route: Route): (r: Option<nat>)
    ensures r.Some? ==> r.value < |s| && SameSubnet(s[r.value], route)
    ensures r.Some? ==> forall k | 0 <= k < r.value :: !SameSubnet(s[k], route)
    ensures r.None? ==> forall k | 0 <= k < |s| :: !SameSubnet(s[k], route)
  {
    if s == [] then None
    else if SameSubnet(s[0], route) then Some(0)
    else match FirstSame(s[1..], route)
      case None => None
      case Some(i) => Some(i + 1)
  }

  function RemoveSame(s: seq<Route>, route: Route): (r: seq<Route>)
    ensures |r| <= |s|
  {
    match FirstSame(s, route)
    case None => s
    case Some(i) => SwapRemove(s, i)
  }

  /** The place of the first subnet with the given prefix. */
  function FirstWithPrefix(s: seq<Route>, prefix: Word): (r: Option<nat>)
    ensures r.Some? ==> r.value < |s| && s[r.value].prefix == prefix
    ensures r.Some? ==> forall k | 0 <= k < r.value :: s[k].prefix != prefix
    ensures r.None? ==> forall k | 0 <= k < |s| :: s[k].prefix != prefix
  {
    if s == [] then None
    else if s[0].prefix == prefix then Some(0)
    else match FirstWithPrefix(s[1..], prefix)
      case None => None
      case Some(i) => Some(i + 1)
  }

  predicate Has(s: seq<Route>, route: Route) {
    FirstSame(s, route).Some?
  }

  /** An advertised route clashes with the host's first subnet on the same prefix: that subnet has a
      router attached, and the route has the same mask or a router attached too. */
  predicate Clashes(s: seq<Route>, route: Route) {
    && !Has(s, route) && FirstWithPrefix(s, route.prefix).Some?
    && var o := s[FirstWithPrefix(s, route.prefix).value];
       o.rid != 0 && (o.mask == route.mask || route.rid != 0)
  }

  /** As Clashes, for the route back, which is never added beside a subnet on its prefix. */
  predicate ClashesBack(s: seq<Route>, route: Route) {
    && !Has(s, route) && FirstWithPrefix(s, route.prefix).Some?
    && s[FirstWithPrefix(s, route.prefix).value].rid != 0
  }

  /** The subnets after an advertised route is taken in. */
  function Learned(s: seq<Route>, route: Route): seq<Route> {
    if Has(s, route) then s
    else match FirstWithPrefix(s, route.prefix)
      case None => s + [route]
      case Some(i) =>
        if Clashes(s, route) then RemoveSame(s, s[i])
        else if s[i].mask == route.mask then s[i := s[i].(rid := route.rid)]
        else s + [route]
  }

  /** The subnets after a route back is taken in. */
  function LearnedBack(s: seq<Route>, route: Route): seq<Route> {
    if Has(s, route) || ClashesBack(s, route) then s
    else match FirstWithPrefix(s, route.prefix)
      case None => s + [route]
      case Some(i) => s[i := s[i].(rid := route.rid)]
  }

  class Router {
    const rid: Word
    var adjacencies: seq<Router?>  // the allocated slots; the first adjSize are in use
    var adjSize: nat
    var subnets: seq<Route>        // the slots in use
    var subnetBufSize: nat
    var lastSeq: bv16
    var expired: int
    // Labels of the shortest-path computation.
    var known: bool
    var dist: int
    var prev: Router?

    ghost predicate Packed()
      reads `adjacencies, `adjSize, `subnets, `subnetBufSize
    {
      && 0 < |adjacencies| && adjSize <= |adjacencies|
      && 0 < subnetBufSize && |subnets| <= subnetBufSize
      && PackedSlots(adjacencies, adjSize)
    }

    /** The first `n` slots hold routers with distinct ids. */
    static ghost predicate PackedSlots(slots: seq<Router?>, n: nat)
      requires n <= |slots|
    {
      && (forall i | 0 <= i < n :: slots[i] != null)
      && (forall i, j | 0 <= i < j < n :: slots[i].rid != slots[j].rid)
    }

    /** The routers in the used slots. */
    ghost function Adj(): set<Router>
      reads `adjacencies, `adjSize
      requires adjSize <= |adjacencies|
    {
      set r: Router | r in adjacencies[..adjSize]
    }

    /** The ids of those routers. */
    ghost function AdjIds(): set<Word>
      reads `adjacencies, `adjSize
      requires adjSize <= |adjacencies|
    {
      set r | r in Adj() :: r.rid
    }

    constructor (rid: Word, expired: int)
      ensures this.rid == rid && Packed() && Adj() == {} && subnets == [] && subnetBufSize == INIT_SUBNET_SIZE
      ensures lastSeq == 0 && this.expired == expired && !known && dist == -1 && prev == null
    {
      this.rid := rid;
      this.adjacencies := seq(INIT_ADJLIST_SIZE, _ => null);
      this.adjSize := 0;
      this.subnets := [];
      this.subnetBufSize := INIT_SUBNET_SIZE;
      this.lastSeq := 0;
      this.expired := expired;
      this.known := false;
      this.dist := -1;
      this.prev := null;
    }

    /** The adjacency with the given id, if any, is taken out and its place filled from the end. */
    method RemoveAdjacency(id: Word)
      requires Packed()
      modifies `adjacencies, `adjSize
      ensures Packed() && |adjacencies| == old(|adjacencies|)
      ensures Adj() <= old(Adj()) && AdjIds() == old(AdjIds()) - {id}
    {
      var i := 0;
      while i < adjSize
        invariant 0 <= i <= adjSize == old(adjSize) && adjacencies == old(adjacencies)
        invariant forall k | 0 <= k < i :: adjacencies[k].rid != id
      {
        if adjacencies[i].rid == id {
          adjacencies := adjacencies[i := null];
          adjacencies := adjacencies[i := adjacencies[adjSize - 1]];
          adjacencies := adjacencies[adjSize - 1 := null];
          adjSize := adjSize - 1;
          SlotTaken(old(adjacencies), old(adjSize), adjacencies, i);
          break;
        }
        i := i + 1;
      }
    }

    static lemma SlotTaken(before: seq<Router?>, n: nat, after: seq<Router?>, i: nat)
      requires i < n <= |before| && PackedSlots(before, n) && |after| == |before|
      requires forall k | 0 <= k < n - 1 :: after[k] == if k == i then before[n - 1] else before[k]
      ensures PackedSlots(after, n - 1)
      ensures forall r: Router :: r in after[..n - 1] <==> r in before[..n] && r.rid != before[i].rid
    {
      forall r: Router
        ensures r in after[..n - 1] <==> r in before[..n] && r.rid != before[i].rid
      {
        if r in before[..n] && r.rid != before[i].rid {
          var k :| 0 <= k < n && before[k] == r;
          assert after[if k == n - 1 then i else k] == r;
        }
        if r in after[..n - 1] {
          var k :| 0 <= k < n - 1 && after[k] == r;
          assert before[if k == i then n - 1 else k] == r;
        }
      }
    }

    /** Appends an adjacency, doubling the array when it is full. */
    method AddAdjacency(con: Router)
      requires Packed() && forall r | r in Adj() :: r.rid != con.rid
      modifies `adjacencies, `adjSize
      ensures Packed() && Adj() == old(Adj()) + {con} && AdjIds() == old(AdjIds()) + {con.rid}
    {
      if |adjacencies| == adjSize {
        adjacencies := adjacencies + seq(|adjacencies|, _ => null);
      }
      assert forall k | 0 <= k < adjSize :: old(adjacencies)[k] in old(Adj());
      adjacencies := adjacencies[adjSize := con];
      adjSize := adjSize + 1;
      assert adjacencies[..adjSize] == old(adjacencies)[..old(adjSize)] + [con];
    }

    method HasAdjacency(con: Router) returns (has: bool)
      requires Packed()
      ensures has <==> con.rid in AdjIds()
    {
      for i := 0 to adjSize
        invariant forall k | 0 <= k < i :: adjacencies[k].rid != con.rid
      {
        if adjacencies[i].rid == con.rid {
          assert adjacencies[i] in adjacencies[..adjSize];
          return true;
        }
      }
      return false;
    }

    /** Removes only the first subnet attached to router `id`. */
    method RemoveSubnetById(id: Word)
      modifies `subnets
      ensures subnets == RemoveFirst(old(subnets), id)
    {
      for i := 0 to |subnets|
        invariant subnets == old(subnets)
        invariant forall k | 0 <= k < i :: subnets[k].rid != id
      {
        if subnets[i].rid == id {
          subnets := SwapRemove(subnets, i);
          return;
        }
      }
    }

    /** Removes the first subnet equal to the given one and, if a router is attached, the adjacency
        to it. */
    method RemoveSubnet(subnet: Route)
      requires Packed()
      modifies `adjacencies, `adjSize, `subnets
      ensures Packed() && subnets == RemoveSame(old(subnets), subnet)
      ensures Adj() <= old(Adj())
      ensures AdjIds() == if subnet.rid != 0 then old(AdjIds()) - {subnet.rid} else old(AdjIds())
    {
      hide PackedSlots;
      for i := 0 to |subnets|
        invariant subnets == old(subnets)
        invariant forall k | 0 <= k < i :: !SameSubnet(subnets[k], subnet)
      {
        if SameSubnet(subnets[i], subnet) {
          subnets := SwapRemove(subnets, i);
          break;
        }
      }
      assert Packed();
      if subnet.rid != 0 {
        DropAdjacency(subnet.rid);
      }
    }

    /** As RemoveAdjacency, except that the slot past the end keeps its stale pointer. */
    method DropAdjacency(id: Word)
      requires Packed()
      modifies `adjacencies, `adjSize
      ensures Packed() && |adjacencies| == old(|adjacencies|)
      ensures Adj() <= old(Adj()) && AdjIds() == old(AdjIds()) - {id}
    {
      var i := 0;
      while i < adjSize
        invariant 0 <= i <= adjSize == old(adjSize) && adjacencies == old(adjacencies)
        invariant forall k | 0 <= k < i :: adjacencies[k].rid != id
      {
        if id == adjacencies[i].rid {
          adjacencies := adjacencies[i := null];
          adjacencies := adjacencies[i := adjacencies[adjSize - 1]];
          adjSize := adjSize - 1;
          SlotTaken(old(adjacencies), old(adjSize), adjacencies, i);
          break;
        }
        i := i + 1;
      }
    }

    /** Whether a subnet with the same prefix, mask and router is present. */
    method Contains(route: Route) returns (has: bool)
      ensures has == Has(subnets, route)
    {
      for i := 0 to |subnets|
        invariant forall k | 0 <= k < i :: !SameSubnet(subnets[k], route)
      {
        if SameSubnet(subnets[i], route) {
          return true;
        }
      }
      return false;
    }

    /** The place of the first subnet with the given prefix. */
    method FindPrefix(prefix: Word) returns (place: Option<nat>)
      ensures place == FirstWithPrefix(subnets, prefix)
    {
      for i := 0 to |subnets|
        invariant forall k | 0 <= k < i :: subnets[k].prefix != prefix
      {
        if subnets[i].prefix == prefix {
          return Some(i);
        }
      }
      return None;
    }

    /** Appends a copy of a subnet, doubling the array when it is full. */
    method AddRoute(route: Route)
      requires Packed()
      modifies `subnets, `subnetBufSize
      ensures Packed() && subnets == old(subnets) + [route]
    {
      if subnetBufSize == |subnets| {
        subnetBufSize := 2 * subnetBufSize;
      }
      subnets := subnets + [route];
    }

    /** Takes in a route the router itself advertised. A route that clashes with a subnet on the same
        prefix makes the router lose that subnet and the adjacency behind it. */
    method Learn(route: Route) returns (clash: bool)
      requires Packed()
      modifies `adjacencies, `adjSize, `subnets, `subnetBufSize
      ensures Packed() && clash == Clashes(old(subnets), route) && subnets == Learned(old(subnets), route)
      ensures !clash ==> adjSize == old(adjSize) && adjacencies == old(adjacencies)
      ensures clash ==> Adj() <= old(Adj())
      ensures clash ==> var i := FirstWithPrefix(old(subnets), route.prefix).value;
                        AdjIds() == old(AdjIds()) - {old(subnets)[i].rid}
    {
      hide PackedSlots;
      var has := Contains(route);
      if !has {
        var place := FindPrefix(route.prefix);
        if place.Some? {
          var o := subnets[place.value];
          if route.mask != o.mask && (route.rid == 0 || o.rid == 0) {
            AddRoute(route);
          } else if o.rid == 0 {
            subnets := subnets[place.value := o.(rid := route.rid)];
          } else {
            RemoveSubnet(o);
            return true;
          }
        } else {
          AddRoute(route);
        }
      }
      return false;
    }

    /** Takes in the route back to a router that advertised this one. A clash makes the router lose
        its adjacency to the advertiser. */
    method LearnBack(route: Route) returns (clash: bool)
      requires Packed()
      modifies `adjacencies, `adjSize, `subnets, `subnetBufSize
      ensures Packed() && clash == ClashesBack(old(subnets), route) && subnets == LearnedBack(old(subnets), route)
      ensures !clash ==> adjSize == old(adjSize) && adjacencies == old(adjacencies)
      ensures clash ==> Adj() <= old(Adj())
      ensures clash ==> AdjIds() == if route.rid != 0 then old(AdjIds()) - {route.rid} else old(AdjIds())
    {
      hide PackedSlots;
      var has := Contains(route);
      if !has {
        var place := FindPrefix(route.prefix);
        if place.Some? {
          var o := subnets[place.value];
          if o.rid == 0 {
            subnets := subnets[place.value := o.(rid := route.rid)];
          } else {
            RemoveSubnet(route);
            return true;
          }
        } else {
          AddRoute(route);
        }
      }
      return false;
    }
  }
}

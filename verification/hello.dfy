/** The neighbour tables that HELLO packets maintain, as values: dropping silent neighbours,
    refreshing or adding the sender. */
module Hellos {
  import opened Records
  import opened Routers

  const OSPF_NEIGHBOR_TIMEOUT: int := 20

  /** A HELLO: receiving interface, sender's address and router id, network mask and interval. */
  datatype Hello = Hello(iface: string, src: Word, rid: Word, mask: Word, helloInt: nat)

  /** The sweep from place `i` on: a silent neighbour is overwritten by the last one, which is looked
      at next. */
  function Sweep(ns: seq<Neighbor>, i: nat, now: int): seq<Neighbor>
    decreases |ns|, |ns| - i
  {
    if i >= |ns| then ns
    else if ns[i].timeNotValid < now then Sweep(SwapRemove(ns, i), i, now)
    else Sweep(ns, i + 1, now)
  }

  function Refresh(ns: seq<Neighbor>, src: Word, until: int): (r: seq<Neighbor>)
    ensures |r| == |ns|
    ensures forall k | 0 <= k < |ns| :: r[k] == if ns[k].ip == src then ns[k].(timeNotValid := until) else ns[k]
  {
    seq(|ns|, k requires 0 <= k < |ns| => if ns[k].ip == src then ns[k].(timeNotValid := until) else ns[k])
  }

  predicate HearsFrom(ns: seq<Neighbor>, src: Word) {
    exists k :: 0 <= k < |ns| && ns[k].ip == src
  }

  /** The receiving interface after an accepted HELLO: its array is doubled when full, even if the
      sender is known already. */
  function Heard(f: Iface, h: Hello, now: int, found: bool): Iface {
    var ns := Refresh(f.neighbors, h.src, now + OSPF_NEIGHBOR_TIMEOUT);
    f.(nbrBufSize := if f.nbrBufSize <= |f.neighbors| then 2 * f.nbrBufSize else f.nbrBufSize,
       neighbors := if found || HearsFrom(f.neighbors, h.src) then ns
                    else ns + [Neighbor(h.rid, h.src, now + OSPF_NEIGHBOR_TIMEOUT)])
  }

  ghost predicate UniqueAddresses(ns: seq<Neighbor>) {
    forall i, j | 0 <= i < j < |ns| :: ns[i].ip != ns[j].ip
  }

  /** The neighbours are distinct and fit in their array, which is not empty. */
  ghost predicate NeighborsFit(f: Iface) {
    UniqueAddresses(f.neighbors) && |f.neighbors| <= f.nbrBufSize && 0 < f.nbrBufSize
  }

  ghost predicate AllFit(ifs: seq<Iface>) {
    forall i | 0 <= i < |ifs| :: NeighborsFit(ifs[i])
  }

  /** Exactly the neighbours still valid stay. */
  lemma {:induction false} SweepKeepsValid(ns: seq<Neighbor>, i: nat, now: int)
    requires i <= |ns| && forall k | 0 <= k < i :: ns[k].timeNotValid >= now
    ensures forall n | n in Sweep(ns, i, now) :: n.timeNotValid >= now
    ensures forall n: Neighbor | n.timeNotValid >= now :: multiset(Sweep(ns, i, now))[n] == multiset(ns)[n]
    ensures |Sweep(ns, i, now)| <= |ns|
    ensures UniqueAddresses(ns) ==> UniqueAddresses(Sweep(ns, i, now))
    decreases |ns|, |ns| - i
  {
    if i < |ns| {
      if ns[i].timeNotValid < now {
        SwapRemoveTakesOne(ns, i);
        SweepKeepsValid(SwapRemove(ns, i), i, now);
      } else {
        SweepKeepsValid(ns, i + 1, now);
      }
    }
  }

  /** Interface `g` is `f` after it accepted a HELLO, `known` telling whether its sender was heard before. Every
      neighbour stays in its place with its id and address, and one at the sender's address for another 20 seconds. A
      new neighbour has the sender's router id and address, and is kept for 20 seconds. */
  ghost predicate HasHeard(f: Iface, g: Iface, h: Hello, now: int, known: bool) {
    && g.name == f.name && g.address == f.address && g.mask == f.mask && g.helloInt == f.helloInt
    && (g.nbrBufSize == if |f.neighbors| < f.nbrBufSize then f.nbrBufSize else 2 * f.nbrBufSize)
    && |g.neighbors| == (if known then |f.neighbors| else |f.neighbors| + 1)
    && (forall k | 0 <= k < |f.neighbors| ::
          && g.neighbors[k].id == f.neighbors[k].id && g.neighbors[k].ip == f.neighbors[k].ip
          && g.neighbors[k].timeNotValid ==
             if f.neighbors[k].ip == h.src then now + 20 else f.neighbors[k].timeNotValid)
    && (!known ==> g.neighbors[|f.neighbors|] == Neighbor(h.rid, h.src, now + 20))
  }

  lemma HeardIs(f: Iface, h: Hello, now: int, found: bool)
    ensures HasHeard(f, Heard(f, h, now, found), h, now,
              found || exists k :: 0 <= k < |f.neighbors| && f.neighbors[k].ip == h.src)
  {
  }

  /** After an accepted HELLO the sender is a neighbour for another 20 seconds, once, with the id it had or the one it
      says; and no other neighbour has changed. */
  lemma HeardSender(f: Iface, h: Hello, now: int)
    requires NeighborsFit(f)
    ensures var g := Heard(f, h, now, false);
            && NeighborsFit(g) && |f.neighbors| < g.nbrBufSize
            && (exists k :: 0 <= k < |g.neighbors| && g.neighbors[k].ip == h.src
                            && g.neighbors[k].timeNotValid == now + OSPF_NEIGHBOR_TIMEOUT
                            && g.neighbors[k].id == (if k < |f.neighbors| then f.neighbors[k].id else h.rid))
            && (forall n: Neighbor | n.ip != h.src :: n in g.neighbors <==> n in f.neighbors)
  {
    var g := Heard(f, h, now, false);
    if HearsFrom(f.neighbors, h.src) {
      var k :| 0 <= k < |f.neighbors| && f.neighbors[k].ip == h.src;
      assert g.neighbors[k].ip == h.src;
    } else {
      assert g.neighbors[|f.neighbors|].ip == h.src;
    }
    forall n: Neighbor | n.ip != h.src
      ensures n in g.neighbors <==> n in f.neighbors
    {
      if n in f.neighbors {
        var k :| 0 <= k < |f.neighbors| && f.neighbors[k] == n;
        assert g.neighbors[k] == n;
      }
    }
  }

  /** Whether the HELLO disagrees with the interface it came in on, which drops it. */
  predicate Mismatch(f: Iface, h: Hello) {
    f.mask != h.mask || f.helloInt != h.helloInt
  }

  function Swept(f: Iface, now: int): Iface {
    f.(neighbors := Sweep(f.neighbors, 0, now))
  }

  /** One interface after the walk has passed it. */
  function Passed(f: Iface, h: Hello, now: int, found: bool): Iface {
    var g := Swept(f, now);
    if g.name == h.iface && !Mismatch(g, h) then Heard(g, h, now, found) else g
  }

  /** The walk over the interfaces from place `k` on; on a mismatch the rest is not even swept. */
  function AfterHello(ifs: seq<Iface>, k: nat, h: Hello, now: int, found: bool): (r: seq<Iface>)
    ensures |r| == |ifs|
    decreases |ifs| - k
  {
    if k >= |ifs| then ifs
    else
      var f := Swept(ifs[k], now);
      var next := ifs[k := Passed(ifs[k], h, now, found)];
      if f.name == h.iface && Mismatch(f, h) then next
      else AfterHello(next, k + 1, h, now, found || (f.name == h.iface && HearsFrom(f.neighbors, h.src)))
  }

  lemma PassedFits(f: Iface, h: Hello, now: int, found: bool)
    requires NeighborsFit(f)
    ensures NeighborsFit(Passed(f, h, now, found))
  {
    SweepKeepsValid(f.neighbors, 0, now);
    HeardSender(Swept(f, now), h, now);
  }

  /** A HELLO leaves every interface with distinct neighbours that fit in their array, wherever the walk begins
      and whether or not the sender was found before: the slot written for a new neighbour exists. */
  lemma {:induction false} AfterHelloFits(ifs: seq<Iface>, k: nat, h: Hello, now: int, found: bool)
    requires AllFit(ifs)
    ensures AllFit(AfterHello(ifs, k, h, now, found))
    decreases |ifs| - k
  {
    if k < |ifs| {
      PassedFits(ifs[k], h, now, found);
      var f, next := Swept(ifs[k], now), ifs[k := Passed(ifs[k], h, now, found)];
      AfterHelloAt(ifs, k, h, now, found);
      hide NeighborsFit, Passed;
      assert AllFit(next);
      AfterHelloFits(next, k + 1, h, now, found || (f.name == h.iface && HearsFrom(f.neighbors, h.src)));
    }
  }

  /** One step of the sweep. */
  lemma SweepAt(ns: seq<Neighbor>, i: nat, now: int)
    requires i < |ns|
    ensures Sweep(ns, i, now) == if ns[i].timeNotValid < now then Sweep(SwapRemove(ns, i), i, now)
            else Sweep(ns, i + 1, now)
  {
  }

  lemma SweepEnd(ns: seq<Neighbor>, i: nat, now: int)
    requires |ns| <= i
    ensures Sweep(ns, i, now) == ns
  {
  }

  /** One step of the walk over the interfaces. */
  lemma AfterHelloAt(ifs: seq<Iface>, k: nat, h: Hello, now: int, found: bool)
    requires k < |ifs|
    ensures var f, next := Swept(ifs[k], now), ifs[k := Passed(ifs[k], h, now, found)];
            AfterHello(ifs, k, h, now, found) ==
              if f.name == h.iface && Mismatch(f, h) then next
              else AfterHello(next, k + 1, h, now, found || (f.name == h.iface && HearsFrom(f.neighbors, h.src)))
  {
  }

  lemma AfterHelloEnd(ifs: seq<Iface>, k: nat, h: Hello, now: int, found: bool)
    requires |ifs| <= k
    ensures AfterHello(ifs, k, h, now, found) == ifs
  {
  }

  /** A subnet set up before its neighbour was heard takes the sender's router id. */
  function Identified(s: seq<Route>, h: Hello): (r: seq<Route>)
    ensures |r| == |s|
  {
    match FirstWithPrefix(s, And(h.src, h.mask))
    case None => s
    case Some(i) => if s[i].rid == 0 && s[i].mask == h.mask then s[i := s[i].(rid := h.rid)] else s
  }

  /** Of the subnets, the first one on the prefix that the sender's address has under the HELLO's mask takes the
      sender's router id, if it has no router yet and that mask. Nothing else changes. */
  ghost predicate TakesSender(s: seq<Route>, u: seq<Route>, h: Hello) {
    |u| == |s| &&
    forall i | 0 <= i < |s| ::
      u[i] == if && s[i].prefix == And(h.src, h.mask) && s[i].mask == h.mask && s[i].rid == 0
                 && (forall k | 0 <= k < i :: s[k].prefix != And(h.src, h.mask))
              then Route(s[i].prefix, s[i].mask, s[i].nextHop, h.rid) else s[i]
  }

  lemma IdentifiedIs(s: seq<Route>, h: Hello)
    ensures TakesSender(s, Identified(s, h), h)
  {
    hide And;
  }
}

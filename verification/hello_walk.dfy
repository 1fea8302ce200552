/** What a HELLO does, one interface after another: to the neighbours of each interface, and to this router's
    subnets. */
module HelloWalk {
  import opened Database
  import opened Hellos
  import opened Records

  // ---- neighbours ----

  /** No other interface has the name of the one at place `j`. */
  ghost predicate OnlyNamed(ifs: seq<Iface>, j: nat, name: string) {
    forall i | 0 <= i < |ifs| && i != j :: ifs[i].name != name
  }

  /** Interface `g` is `f` after the walk got to it: the neighbours still valid are left, and on the interface that the
      HELLO came in on and agrees with, its sender has been heard. */
  ghost predicate GotTo(f: Iface, g: Iface, h: Hello, now: int) {
    var s := Swept(f, now);
    if f.name == h.iface && f.mask == h.mask && f.helloInt == h.helloInt
    then HasHeard(s, g, h, now, exists k :: 0 <= k < |s.neighbors| && s.neighbors[k].ip == h.src)
    else g == s
  }

  lemma PassedGetsTo(f: Iface, h: Hello, now: int, found: bool)
    requires found ==> f.name != h.iface
    ensures GotTo(f, Passed(f, h, now, found), h, now)
  {
    HeardIs(Swept(f, now), h, now, found);
    hide Sweep, Heard, HasHeard;
  }

  lemma {:induction false} BehindStays(ifs: seq<Iface>, k: nat, h: Hello, now: int, found: bool, i: nat)
    requires i < k && i < |ifs|
    ensures AfterHello(ifs, k, h, now, found)[i] == ifs[i]
    decreases |ifs| - k
  {
    hide Passed, Swept, HearsFrom, Mismatch;
    if k < |ifs| {
      var f, next := Swept(ifs[k], now), ifs[k := Passed(ifs[k], h, now, found)];
      BehindStays(next, k + 1, h, now, found || (f.name == h.iface && HearsFrom(f.neighbors, h.src)), i);
    }
  }

  /** The sender was found on interfaces that the walk has passed, which are no longer named. */
  ghost predicate NamedBefore(ifs: seq<Iface>, k: nat, name: string) {
    forall i | k <= i < |ifs| :: ifs[i].name != name
  }

  /** A HELLO changes the interfaces that the walk gets to as said, and no other; the walk ends at an interface that the
      HELLO came in on and disagrees with. Interfaces have names of their own. */
  lemma {:induction false} HelloAtEach(ifs: seq<Iface>, k: nat, h: Hello, now: int, found: bool, j: nat, i: nat)
    requires OnlyNamed(ifs, j, h.iface) && k <= i < |ifs| && (found ==> NamedBefore(ifs, k, h.iface))
    ensures var g := AfterHello(ifs, k, h, now, found)[i];
            if GetsTo(ifs, k, i, h) then GotTo(ifs[i], g, h, now) else g == ifs[i]
    decreases |ifs| - k
  {
    hide GotTo, Passed, Sweep, HearsFrom, Mismatch;
    AfterHelloAt(ifs, k, h, now, found);
    var f, next := Swept(ifs[k], now), ifs[k := Passed(ifs[k], h, now, found)];
    var more := found || (f.name == h.iface && HearsFrom(f.neighbors, h.src));
    PassedGetsTo(ifs[k], h, now, found);
    StopsBySwept(ifs[k], h, now);
    if i == k {
      BehindStays(next, k + 1, h, now, more, k);
    } else if !StopsAt(ifs[k], h) {
      PassedKeepsName(ifs[k], h, now, found);
      HelloAtEach(next, k + 1, h, now, more, j, i);
      GetsFurther(ifs, next, k, i, h);
    }
  }

  lemma StopsBySwept(f: Iface, h: Hello, now: int)
    ensures StopsAt(f, h) <==> Swept(f, now).name == h.iface && Mismatch(Swept(f, now), h)
    ensures Swept(f, now).name == f.name
  {
  }

  lemma PassedKeepsName(f: Iface, h: Hello, now: int, found: bool)
    ensures Passed(f, h, now, found).name == f.name
  {
  }

  lemma GetsFurther(ifs: seq<Iface>, next: seq<Iface>, k: nat, i: nat, h: Hello)
    requires k < i < |ifs| == |next| && !StopsAt(ifs[k], h) && forall j | k < j < |ifs| :: next[j] == ifs[j]
    ensures GetsTo(next, k + 1, i, h) <==> GetsTo(ifs, k, i, h)
  {
    hide StopsAt;
    if GetsTo(next, k + 1, i, h) {
      assert forall j | k < j < i :: next[j] == ifs[j] && !StopsAt(next[j], h);
    }
    if GetsTo(ifs, k, i, h) {
      assert forall j | k < j < i :: !StopsAt(ifs[j], h);
    }
  }

  // ---- subnets ----

  /** Once start-up is over the silent neighbours of these interfaces are withdrawn, one interface after another. */
  ghost function SweptAll(t: Topo, me: Word, ifs: seq<Iface>, now: int, pastStart: bool): Topo
    decreases |ifs|
  {
    if ifs == [] || !pastStart then t
    else SweptAll(SweptTopo(t, me, ifs[0].neighbors, 0, now), me, ifs[1..], now, pastStart)
  }

  /** `u` is `t` with this router's subnets `s`. */
  ghost predicate OnlySubnets(t: Topo, u: Topo, me: Word, s: seq<Route>) {
    u.links == t.links && u.subnets == t.subnets[me := s]
  }

  lemma SweptKeepsMe(t: Topo, me: Word, f: Iface, now: int)
    requires WellFormed(t) && me in t.links
    ensures WellFormed(SweptTopo(t, me, f.neighbors, 0, now)) && me in SweptTopo(t, me, f.neighbors, 0, now).links
  {
    hide WellFormed, SweptTopo;
    SweptTopoShrinks(t, me, f.neighbors, 0, now);
  }

  lemma {:induction false} SweptOneMore(t: Topo, me: Word, ifs: seq<Iface>, now: int, pastStart: bool, k: nat)
    requires k < |ifs|
    ensures SweptAll(t, me, ifs[k..], now, pastStart) ==
            var u := if pastStart then SweptTopo(t, me, ifs[k].neighbors, 0, now) else t;
            SweptAll(u, me, ifs[k + 1..], now, pastStart)
  {
    assert ifs[k..][1..] == ifs[k + 1..];
  }

  /** From interface `k` on, where none is the one the HELLO came in on. */
  lemma {:induction false} OnlySweeps(t: Topo, me: Word, ifs: seq<Iface>, k: nat, h: Hello, now: int, pastStart: bool)
    requires k <= |ifs| && NamedBefore(ifs, k, h.iface)
    ensures AfterHelloTopo(t, me, ifs, k, h, now, pastStart) == SweptAll(t, me, ifs[k..], now, pastStart)
    decreases |ifs| - k
  {
    hide SweptTopo;
    AfterHelloTopoAt(t, me, ifs, k, h, now, pastStart);
    if k < |ifs| {
      SweptOneMore(t, me, ifs, now, pastStart, k);
      OnlySweeps(PassedTopo(t, me, ifs[k], h, now, pastStart), me, ifs, k + 1, h, now, pastStart);
    }
  }

  /** The interface the HELLO came in on, at place `j`, agrees with it. */
  ghost predicate AgreesAt(ifs: seq<Iface>, j: nat, h: Hello) {
    j < |ifs| && ifs[j].name == h.iface && ifs[j].mask == h.mask && ifs[j].helloInt == h.helloInt
  }

  /** The walk sweeps every interface up to the one the HELLO came in on. If that one agrees with the HELLO, this
      router's subnets take in the sender, and the other interfaces are swept; else the walk ends there. */
  lemma {:induction false} HelloInTurn(t: Topo, me: Word, ifs: seq<Iface>, k: nat, h: Hello, now: int, pastStart: bool,
            j: nat) returns (u: Topo)
    requires WellFormed(t) && me in t.links && k <= j < |ifs| && ifs[j].name == h.iface && OnlyNamed(ifs, j, h.iface)
    ensures var swept := SweptAll(t, me, ifs[k..j + 1], now, pastStart);
            AfterHelloTopo(t, me, ifs, k, h, now, pastStart) ==
              if AgreesAt(ifs, j, h) then SweptAll(u, me, ifs[j + 1..], now, pastStart) else swept
    ensures var swept := SweptAll(t, me, ifs[k..j + 1], now, pastStart);
            exists s :: TakesSender(SubsOf(swept, me), s, h) && OnlySubnets(swept, u, me, s)
    decreases j - k
  {
    hide SweptTopo, Identified, TakesSender, WellFormed;
    AfterHelloTopoAt(t, me, ifs, k, h, now, pastStart);
    var v := if pastStart then SweptTopo(t, me, ifs[k].neighbors, 0, now) else t;
    SweptKeepsMe(t, me, ifs[k], now);
    SweptOneMore(t, me, ifs[..j + 1], now, pastStart, k);
    assert ifs[..j + 1][k..] == ifs[k..j + 1] && ifs[..j + 1][k + 1..] == ifs[k + 1..j + 1];
    if k < j {
      u := HelloInTurn(v, me, ifs, k + 1, h, now, pastStart, j);
    } else {
      assert ifs[k + 1..j + 1] == [];
      u := SetSubs(v, me, Identified(SubsOf(v, me), h));
      IdentifiedIs(SubsOf(v, me), h);
      if AgreesAt(ifs, j, h) {
        OnlySweeps(u, me, ifs, j + 1, h, now, pastStart);
      }
    }
  }

  lemma {:induction false} NobodySilent(t: Topo, me: Word, ifs: seq<Iface>, now: int, pastStart: bool)
    requires pastStart ==> forall i, n | 0 <= i < |ifs| && n in ifs[i].neighbors :: now <= n.timeNotValid
    ensures SweptAll(t, me, ifs, now, pastStart) == t
  {
    if ifs != [] && pastStart {
      NobodySwept(t, me, ifs[0].neighbors, 0, now);
      NobodySilent(t, me, ifs[1..], now, pastStart);
    }
  }

  /** During start-up, or with nobody gone silent, a HELLO does no more: this router's first subnet on the prefix of the
      sender takes its router id if it has none and the mask agrees, in a HELLO that agrees with its interface. */
  lemma QuietHello(t: Topo, me: Word, ifs: seq<Iface>, h: Hello, now: int, pastStart: bool, j: nat)
    requires WellFormed(t) && me in t.links && j < |ifs| && ifs[j].name == h.iface && OnlyNamed(ifs, j, h.iface)
    requires pastStart ==> forall i, n | 0 <= i < |ifs| && n in ifs[i].neighbors :: now <= n.timeNotValid
    ensures var u := AfterHelloTopo(t, me, ifs, 0, h, now, pastStart);
            if AgreesAt(ifs, j, h) then exists s :: TakesSender(SubsOf(t, me), s, h) && OnlySubnets(t, u, me, s)
            else u == t
  {
    hide TakesSender, WellFormed, AfterHelloTopo;
    var u := HelloInTurn(t, me, ifs, 0, h, now, pastStart, j);
    NobodySilent(t, me, ifs[0..j + 1], now, pastStart);
    NobodySilent(u, me, ifs[j + 1..], now, pastStart);
  }
}

/** The flooding of one LSU through a network of routers, as steps that each deliver one copy. */
module FloodProtocol {
  import opened Graphs
  import opened Records
  import opened Flooding

  /** `owner` tells which router answers to an address; `origin` floods these advertisements under sequence number
      `seq_`. */
  datatype Net = Net(ifaces: map<Word, seq<Iface>>, owner: map<Word, Word>, origin: Word, seq_: bv16, advs: seq<Route>)

  /** Router `router` took in these advertisements. */
  datatype Taken = Taken(router: Word, advs: seq<Route>)

  /** `stored` is the sequence number each router keeps for the origin, 0 when it does not know it, and
      `flight` the copies under way. `depth` (hops the LSU took to each router that accepted it) and
      `log` (the acceptances in order) are history. */
  datatype State = State(stored: map<Word, bv16>, flight: multiset<Lsu>, depth: map<Word, nat>, log: seq<Taken>)

  ghost predicate ValidNet(n: Net) {
    && n.origin in n.ifaces && n.seq_ != 0
    && (forall r, i | r in n.ifaces && 0 <= i < |n.ifaces[r]| ::
          n.ifaces[r][i].address in n.owner && n.owner[n.ifaces[r][i].address] == r)
    && (forall r, i, j | r in n.ifaces && 0 <= i < |n.ifaces[r]| && 0 <= j < |n.ifaces[r][i].neighbors| ::
          n.ifaces[r][i].neighbors[j].ip in n.owner && n.owner[n.ifaces[r][i].neighbors[j].ip] in n.ifaces)
  }

  /** Who hears whom. */
  ghost function Links(n: Net): Graph<Word> {
    map r | r in n.ifaces :: set v | v in n.ifaces && Lists(n.owner, n.ifaces[r], v)
  }

  /** The origin has just sent its LSU, which nobody has seen. */
  ghost predicate Init(n: Net, s: State) {
    && s.stored.Keys == n.ifaces.Keys && n.origin in n.ifaces
    && (forall r | r in s.stored :: s.stored[r] != n.seq_)
    && s.flight == multiset(Originated(n.ifaces[n.origin], n.origin, n.seq_, n.advs))
    && s.depth == map[n.origin := 0] && s.log == []
  }

  /** What router `r` does with a copy: handle_lsu drops its own LSUs and those it has seen. */
  ghost predicate Accepts(s: State, r: Word, c: Lsu) {
    c.rid != r && r in s.stored && s.stored[r] != c.seq_
  }

  /** Delivery of one copy. */
  ghost function Deliver(n: Net, s: State, c: Lsu): State
    requires c.dst in n.owner && n.owner[c.dst] in n.ifaces
  {
    var r := n.owner[c.dst];
    var rest := s.flight - multiset{c};
    if Accepts(s, r, c) then
      State(s.stored[r := c.seq_], rest + multiset(Forwarded(n.ifaces[r], c)),
            s.depth[r := 1 + DepthOf(n, s, c.src)], s.log + [Taken(r, c.advs)])
    else s.(flight := rest)
  }

  ghost function DepthOf(n: Net, s: State, a: Word): nat {
    if a in n.owner && n.owner[a] in s.depth then s.depth[n.owner[a]] else 0
  }

  ghost predicate Next(n: Net, s: State, t: State) {
    exists c :: c in s.flight && c.dst in n.owner && n.owner[c.dst] in n.ifaces && t == Deliver(n, s, c)
  }

  // ---- the invariant ----

  /** A copy under way carries the LSU, comes from a router that accepted it, and has lost one unit of
      both times to live for every hop before that router. */
  ghost predicate GoodCopy(n: Net, s: State, c: Lsu) {
    && c.rid == n.origin && c.seq_ == n.seq_ && c.advs == n.advs
    && c.src in n.owner && n.owner[c.src] in s.depth
    && c.dst in n.owner && n.owner[c.dst] in n.ifaces
    && 0 < c.ttl && c.ttl == c.ipTtl == INIT_TTL - s.depth[n.owner[c.src]]
  }

  ghost predicate Underway(n: Net, s: State, v: Word) {
    exists c :: c in s.flight && c.dst in n.owner && n.owner[c.dst] == v
  }

  /** Every router that `r` lists has accepted the LSU or has a copy coming. */
  ghost predicate Served(n: Net, s: State, r: Word)
    requires r in n.ifaces
  {
    forall v | Lists(n.owner, n.ifaces[r], v) :: v in s.depth || Underway(n, s, v)
  }

  ghost predicate Bookkeeping(n: Net, s: State) {
    && s.stored.Keys == n.ifaces.Keys && s.depth.Keys <= n.ifaces.Keys
    && n.origin in s.depth
    && (forall r | r in n.ifaces && r != n.origin :: r in s.depth <==> s.stored[r] == n.seq_)
    && (forall r | r in s.depth :: s.depth[r] < |s.depth|)
    && (forall i, j | 0 <= i < j < |s.log| :: s.log[i].router != s.log[j].router)
    && (forall e | e in s.log :: e.router in s.depth && e.router != n.origin && e.advs == n.advs)
    && (forall r | r in s.depth && r != n.origin :: Taken(r, n.advs) in s.log)
  }

  ghost predicate Inv(n: Net, s: State) {
    && Bookkeeping(n, s)
    && (forall c | c in s.flight :: GoodCopy(n, s, c))
    && (forall r | r in s.depth && s.depth[r] < INIT_TTL :: Served(n, s, r))
  }

  /** Some copy serves every router listed, other than the one at address `from`. */
  lemma CopiesServe(n: Net, ifs: seq<Iface>, p: Lsu, from: Option<Word>, v: Word)
    requires Lists(n.owner, ifs, v) && (from.Some? ==> from.value in n.owner && n.owner[from.value] != v)
    ensures exists c :: c in Copies(ifs, p, from) && c.dst in n.owner && n.owner[c.dst] == v
  {
    CopiesContents(ifs, p, from);
    var i, j :| 0 <= i < |ifs| && 0 <= j < |ifs[i].neighbors|
                && ifs[i].neighbors[j].ip in n.owner && n.owner[ifs[i].neighbors[j].ip] == v;
    assert IsCopy(ifs, p, from, CopyFor(ifs, p, i, j), i, j);
  }

  /** Copies leave from the interfaces of their sender towards routers of the network. */
  lemma CopiesAreAddressed(n: Net, r: Word, p: Lsu, from: Option<Word>, c: Lsu)
    requires ValidNet(n) && r in n.ifaces && c in Copies(n.ifaces[r], p, from)
    ensures c == p.(src := c.src, dst := c.dst) && c.src in n.owner && n.owner[c.src] == r
    ensures c.dst in n.owner && n.owner[c.dst] in n.ifaces
  {
    CopiesContents(n.ifaces[r], p, from);
    var i: nat, j: nat :| IsCopy(n.ifaces[r], p, from, c, i, j);
  }

  lemma InitInv(n: Net, s: State)
    requires ValidNet(n) && Init(n, s)
    ensures Inv(n, s)
  {
    hide ValidNet, Copies, Lists;
    var ifs := n.ifaces[n.origin];
    var p := Lsu(n.origin, n.seq_, INIT_TTL, INIT_TTL, 0, 0, n.advs);
    forall c | c in s.flight
      ensures GoodCopy(n, s, c)
    {
      assert c in Copies(ifs, p, None);
      CopiesAreAddressed(n, n.origin, p, None, c);
    }
    forall v | Lists(n.owner, ifs, v)
      ensures Underway(n, s, v)
    {
      CopiesServe(n, ifs, p, None, v);
      var c :| c in Copies(ifs, p, None) && c.dst in n.owner && n.owner[c.dst] == v;
      assert c in s.flight;
    }
  }

  lemma DropKeepsInv(n: Net, s: State, c: Lsu)
    requires ValidNet(n) && Inv(n, s) && c in s.flight && !Accepts(s, n.owner[c.dst], c)
    ensures Inv(n, Deliver(n, s, c))
  {
    var t := Deliver(n, s, c);
    assert GoodCopy(n, s, c) && n.owner[c.dst] in s.depth;
    forall e | e in t.flight
      ensures GoodCopy(n, t, e)
    {
      assert e in s.flight;
    }
    forall r | r in t.depth && t.depth[r] < INIT_TTL
      ensures Served(n, t, r)
    {
      assert Served(n, s, r);
      forall v | Lists(n.owner, n.ifaces[r], v) && v !in t.depth
        ensures Underway(n, t, v)
      {
        var e :| e in s.flight && e.dst in n.owner && n.owner[e.dst] == v;
        assert e in t.flight;
      }
    }
  }

  lemma AcceptKeepsBookkeeping(n: Net, s: State, c: Lsu)
    requires ValidNet(n) && Inv(n, s) && c in s.flight && Accepts(s, n.owner[c.dst], c)
    ensures Bookkeeping(n, Deliver(n, s, c))
    ensures n.owner[c.dst] !in s.depth
  {
    var r := n.owner[c.dst];
    var t := Deliver(n, s, c);
    assert GoodCopy(n, s, c);
    assert t.depth.Keys == s.depth.Keys + {r};
    assert |t.depth| == |s.depth| + 1;
  }

  lemma ForwardedAreGood(n: Net, s: State, c: Lsu, e: Lsu)
    requires ValidNet(n) && Inv(n, s) && c in s.flight && Accepts(s, n.owner[c.dst], c)
    requires e in Forwarded(n.ifaces[n.owner[c.dst]], c)
    ensures GoodCopy(n, Deliver(n, s, c), e)
  {
    hide ValidNet, Copies, Bookkeeping, Served;
    var r := n.owner[c.dst];
    assert GoodCopy(n, s, c);
    CopiesAreAddressed(n, r, c.(ttl := Dec8(c.ttl), ipTtl := Dec8(c.ipTtl)), Some(c.src), e);
    AcceptKeepsBookkeeping(n, s, c);
  }

  /** A router that accepts the LSU early enough serves every router it lists. */
  lemma AcceptServes(n: Net, s: State, c: Lsu, v: Word)
    requires ValidNet(n) && Inv(n, s) && c in s.flight && Accepts(s, n.owner[c.dst], c)
    requires Deliver(n, s, c).depth[n.owner[c.dst]] < INIT_TTL
    requires Lists(n.owner, n.ifaces[n.owner[c.dst]], v) && v !in Deliver(n, s, c).depth
    ensures Underway(n, Deliver(n, s, c), v)
  {
    hide ValidNet, Copies, Bookkeeping, Served, Lists;
    var r := n.owner[c.dst];
    assert GoodCopy(n, s, c);
    var p := c.(ttl := Dec8(c.ttl), ipTtl := Dec8(c.ipTtl));
    CopiesServe(n, n.ifaces[r], p, Some(c.src), v);
    var e :| e in Copies(n.ifaces[r], p, Some(c.src)) && e.dst in n.owner && n.owner[e.dst] == v;
    assert e in Forwarded(n.ifaces[r], c);
    assert e in Deliver(n, s, c).flight;
  }

  lemma AcceptKeepsCopies(n: Net, s: State, c: Lsu, e: Lsu)
    requires ValidNet(n) && Inv(n, s) && c in s.flight && Accepts(s, n.owner[c.dst], c)
    requires e in Deliver(n, s, c).flight
    ensures GoodCopy(n, Deliver(n, s, c), e)
  {
    hide Forwarded, ValidNet, Lists, Served;
    AcceptKeepsBookkeeping(n, s, c);
    if e in Forwarded(n.ifaces[n.owner[c.dst]], c) {
      ForwardedAreGood(n, s, c, e);
    } else {
      assert e in s.flight && GoodCopy(n, s, e);
    }
  }

  lemma AcceptKeepsServed(n: Net, s: State, c: Lsu, x: Word)
    requires ValidNet(n) && Inv(n, s) && c in s.flight && Accepts(s, n.owner[c.dst], c)
    requires x in s.depth && Served(n, s, x)
    ensures Served(n, Deliver(n, s, c), x)
  {
    assert c.dst in n.owner && n.owner[c.dst] in n.ifaces && x in n.ifaces;
    hide Forwarded, ValidNet, Lists, Inv;
    var t := Deliver(n, s, c);
    forall v | Lists(n.owner, n.ifaces[x], v) && v !in t.depth
      ensures Underway(n, t, v)
    {
      var e :| e in s.flight && e.dst in n.owner && n.owner[e.dst] == v;
      assert e in t.flight;
    }
  }

  lemma AcceptKeepsInv(n: Net, s: State, c: Lsu)
    requires ValidNet(n) && Inv(n, s) && c in s.flight && Accepts(s, n.owner[c.dst], c)
    ensures Inv(n, Deliver(n, s, c))
  {
    assert c.dst in n.owner && n.owner[c.dst] in n.ifaces;
    hide Forwarded, ValidNet, Lists, GoodCopy, Underway;
    var r, t := n.owner[c.dst], Deliver(n, s, c);
    AcceptKeepsBookkeeping(n, s, c);
    forall e | e in t.flight
      ensures GoodCopy(n, t, e)
    {
      AcceptKeepsCopies(n, s, c, e);
    }
    forall x | x in t.depth && t.depth[x] < INIT_TTL
      ensures Served(n, t, x)
    {
      if x != r {
        AcceptKeepsServed(n, s, c, x);
      } else {
        forall v | Lists(n.owner, n.ifaces[r], v) && v !in t.depth
          ensures Underway(n, t, v)
        {
          AcceptServes(n, s, c, v);
        }
      }
    }
  }

  lemma NextInv(n: Net, s: State, t: State)
    requires ValidNet(n) && Inv(n, s) && Next(n, s, t)
    ensures Inv(n, t)
  {
    hide Inv, ValidNet, Deliver, Accepts;
    var c :| c in s.flight && c.dst in n.owner && n.owner[c.dst] in n.ifaces && t == Deliver(n, s, c);
    if Accepts(s, n.owner[c.dst], c) {
      AcceptKeepsInv(n, s, c);
    } else {
      DropKeepsInv(n, s, c);
    }
  }

  // ---- whole runs ----

  ghost predicate Run(n: Net, run: seq<State>) {
    && run != [] && ValidNet(n) && Init(n, run[0])
    && forall i | 0 <= i < |run| - 1 :: Next(n, run[i], run[i + 1])
  }

  lemma {:induction false} RunInv(n: Net, run: seq<State>, i: nat)
    requires Run(n, run) && i < |run|
    ensures Inv(n, run[i])
  {
    hide Inv, Init, Next;
    if i == 0 {
      InitInv(n, run[0]);
    } else {
      RunInv(n, run, i - 1);
      NextInv(n, run[i - 1], run[i]);
    }
  }

  /** Copies under way, plus the most copies that routers yet to accept can still send. */
  ghost function Work(n: Net, s: State, m: nat): int {
    |s.flight| + m * (|n.ifaces| - |s.depth|)
  }

  ghost predicate DegreeAtMost(n: Net, m: nat) {
    forall r | r in n.ifaces :: Degree(n.ifaces[r]) <= m
  }

  lemma AcceptDoesWork(n: Net, s: State, c: Lsu, m: nat)
    requires ValidNet(n) && Inv(n, s) && c in s.flight && Accepts(s, n.owner[c.dst], c) && DegreeAtMost(n, m)
    ensures |Deliver(n, s, c).depth| == |s.depth| + 1
    ensures |Deliver(n, s, c).flight| <= |s.flight| - 1 + m
  {
    hide ValidNet, Served, Lists, Copies;
    var r, t := n.owner[c.dst], Deliver(n, s, c);
    AcceptKeepsBookkeeping(n, s, c);
    assert t.depth.Keys == s.depth.Keys + {r};
    CopiesContents(n.ifaces[r], c.(ttl := Dec8(c.ttl), ipTtl := Dec8(c.ipTtl)), Some(c.src));
    assert |Forwarded(n.ifaces[r], c)| <= Degree(n.ifaces[r]) <= m;
  }

  lemma DropDoesWork(n: Net, s: State, c: Lsu)
    requires c in s.flight && c.dst in n.owner && n.owner[c.dst] in n.ifaces && !Accepts(s, n.owner[c.dst], c)
    ensures Deliver(n, s, c).depth == s.depth && |Deliver(n, s, c).flight| == |s.flight| - 1
  {
  }

  lemma StepDoesWork(n: Net, s: State, t: State, m: nat)
    requires ValidNet(n) && Inv(n, s) && Next(n, s, t) && DegreeAtMost(n, m)
    ensures Work(n, t, m) < Work(n, s, m)
  {
    hide ValidNet, Inv, DegreeAtMost, Deliver, Accepts;
    var c :| c in s.flight && c.dst in n.owner && n.owner[c.dst] in n.ifaces && t == Deliver(n, s, c);
    if Accepts(s, n.owner[c.dst], c) {
      AcceptDoesWork(n, s, c, m);
      WorkSplits(m, |n.ifaces| - |s.depth|);
    } else {
      DropDoesWork(n, s, c);
    }
  }

  lemma WorkSplits(m: nat, k: int)
    ensures m * k == m + m * (k - 1)
  {
  }

  lemma WorkIsNatural(n: Net, s: State, m: nat)
    requires Inv(n, s)
    ensures 0 <= Work(n, s, m)
  {
    SubsetSize(s.depth.Keys, n.ifaces.Keys);
    ProductIsNatural(m, |n.ifaces| - |s.depth|);
  }

  lemma ProductIsNatural(a: nat, b: nat)
    ensures 0 <= a * b
  {
  }

  lemma {:induction false} SubsetSize<T>(a: set<T>, b: set<T>)
    requires a <= b
    ensures |a| <= |b|
  {
    if a != {} {
      var x :| x in a;
      SubsetSize(a - {x}, b - {x});
    }
  }

  lemma {:induction false} WorkSpent(n: Net, run: seq<State>, m: nat, i: nat)
    requires Run(n, run) && DegreeAtMost(n, m) && i < |run|
    ensures Work(n, run[i], m) + i <= m * |n.ifaces|
  {
    hide Inv, Next, Work, DegreeAtMost;
    if i == 0 {
      FirstWork(n, run[0], m);
    } else {
      WorkSpent(n, run, m, i - 1);
      RunInv(n, run, i - 1);
      StepDoesWork(n, run[i - 1], run[i], m);
    }
  }

  lemma FirstWork(n: Net, s: State, m: nat)
    requires ValidNet(n) && Init(n, s) && DegreeAtMost(n, m)
    ensures Work(n, s, m) <= m * |n.ifaces|
  {
    hide ValidNet;
    CopiesContents(n.ifaces[n.origin], Lsu(n.origin, n.seq_, INIT_TTL, INIT_TTL, 0, 0, n.advs), None);
    WorkSplits(m, |n.ifaces|);
  }

  /** Flooding stops: a run takes at most (largest number of neighbours) * (number of routers) steps. */
  lemma FloodingStops(n: Net, run: seq<State>, m: nat)
    requires Run(n, run) && DegreeAtMost(n, m)
    ensures |run| - 1 <= m * |n.ifaces|
  {
    hide Inv, Next, Work, DegreeAtMost, Init;
    WorkSpent(n, run, m, |run| - 1);
    RunInv(n, run, |run| - 1);
    WorkIsNatural(n, run[|run| - 1], m);
  }

  /** No router accepts the LSU twice, and its originator never accepts it. */
  lemma AcceptedAtMostOnce(n: Net, run: seq<State>, k: nat)
    requires Run(n, run) && k < |run|
    ensures forall e | e in run[k].log :: e.router != n.origin
    ensures forall i, j | 0 <= i < j < |run[k].log| :: run[k].log[i].router != run[k].log[j].router
  {
    hide Next, Init, ValidNet;
    RunInv(n, run, k);
  }

  /** With at most 256 routers the times to live suffice: a router that has not accepted the LSU but is
      listed by one that has, has a copy coming. */
  lemma ListedHasCopyComing(n: Net, s: State, r: Word, v: Word)
    requires ValidNet(n) && Inv(n, s) && |n.ifaces| <= 256
    requires r in s.depth && v in n.ifaces && v !in s.depth && Lists(n.owner, n.ifaces[r], v)
    ensures Underway(n, s, v)
  {
    hide ValidNet, Lists, Underway;
    assert s.depth.Keys <= n.ifaces.Keys - {v};
    SubsetSize(s.depth.Keys, n.ifaces.Keys - {v});
    assert Served(n, s, r);
  }

  lemma ListedHasAccepted(n: Net, s: State, r: Word, v: Word)
    requires ValidNet(n) && Inv(n, s) && s.flight == multiset{} && |n.ifaces| <= 256
    requires r in s.depth && v in n.ifaces && Lists(n.owner, n.ifaces[r], v)
    ensures v in s.depth
  {
    hide ValidNet, Lists, Inv;
    if v !in s.depth {
      ListedHasCopyComing(n, s, r, v);
    }
  }

  /** A run can go on as long as a copy is under way, so a run that cannot go on is at rest. */
  lemma NeverStuck(n: Net, run: seq<State>) returns (t: State)
    requires Run(n, run) && run[|run| - 1].flight != multiset{}
    ensures Next(n, run[|run| - 1], t)
  {
    hide Init, ValidNet;
    var s := run[|run| - 1];
    RunInv(n, run, |run| - 1);
    var c :| c in s.flight;
    assert GoodCopy(n, s, c);
    t := Deliver(n, s, c);
  }

  lemma {:induction false} WalkHasAccepted(n: Net, s: State, v: Word, k: nat)
    requires ValidNet(n) && Inv(n, s) && s.flight == multiset{} && |n.ifaces| <= 256
    requires Walk(Links(n), n.origin, v, k)
    ensures v in s.depth
    decreases k
  {
    hide ValidNet, Lists;
    if k > 0 {
      var u :| u in Links(n) && Walk(Links(n), n.origin, u, k - 1) && v in Links(n)[u];
      WalkHasAccepted(n, s, u, k - 1);
      ListedHasAccepted(n, s, u, v);
    }
  }

  /** Every copy under way, however often it was sent on, carries what the originator advertised, and so does every LSU
      taken in. */
  lemma NothingElseTravels(n: Net, run: seq<State>, k: nat)
    requires Run(n, run) && k < |run|
    ensures forall c | c in run[k].flight :: c.rid == n.origin && c.seq_ == n.seq_ && c.advs == n.advs
    ensures forall e | e in run[k].log :: e.advs == n.advs
  {
    hide Next, Init, ValidNet;
    RunInv(n, run, k);
    assert forall c | c in run[k].flight :: GoodCopy(n, run[k], c);
  }

  /** Flooding delivers: when nothing is under way any more, every other router that can be reached
      over neighbour links has taken in what the originator advertised, and stores its sequence number. */
  lemma FloodingDelivers(n: Net, run: seq<State>, v: Word)
    requires Run(n, run) && run[|run| - 1].flight == multiset{} && |n.ifaces| <= 256
    requires Reachable(Links(n), n.origin, v) && v != n.origin
    ensures Taken(v, n.advs) in run[|run| - 1].log
    ensures v in run[|run| - 1].stored && run[|run| - 1].stored[v] == n.seq_
  {
    hide Next, Init, ValidNet, Walk;
    RunInv(n, run, |run| - 1);
    var k: nat :| Walk(Links(n), n.origin, v, k);
    WalkHasAccepted(n, run[|run| - 1], v, k);
  }
}

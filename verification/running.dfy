/** The network of routers as it runs: subsystems whose databases came about by LSUs form a converged network. */
module RunningNetwork {
  import opened Convergence
  import opened Database
  import opened Forwarding
  import opened Network
  import opened PacketLoops
  import opened Records
  import Topology

  /** Router `x` of the network is the subsystem `s`: its table is right for its database, and the database
      agrees with what the routers hold. */
  ghost predicate RunsOn(s: Topology.Subsystem, n: Net, t: Tables, x: Word)
    reads s, s.network, s.thisRouter
  {
    && s.ValidNet() && s.TableMatches() && s.thisRouter.rid == x && n.own.Keys == n.statics.Keys
    && s.RidLinks() == n.links && SameHoldings(s.RidSubs(), View(n.own, n.statics, x), x)
    && x in n.ifaces && s.interfaces == n.ifaces[x] && x in t && s.fwrdTable == t[x]
  }

  lemma NodeTable(s: Topology.Subsystem, n: Net, t: Tables, x: Word)
    requires RunsOn(s, n, t, x)
    ensures TableCorrect(n.links, x, View(n.own, n.statics, x), n.ifaces[x], Self, t[x])
  {
    hide TableCorrect, SameHoldings;
    s.TableByRid();
    HoldingsDecideTable(n.links, x, s.RidSubs(), View(n.own, n.statics, x), n.ifaces[x], Self, t[x]);
  }

  /** Routers that have recomputed their tables, each on its own database, form a converged network. */
  lemma RecomputedNetworkConverges(n: Net, t: Tables, nodes: map<Word, Topology.Subsystem>)
    requires SameRouters(n) && nodes.Keys == t.Keys == n.links.Keys
    requires forall x | x in nodes :: RunsOn(nodes[x], n, t, x)
    requires forall x, y | x in n.links && y in n.links[x] :: HeardFrom(n, x, y)
    ensures Converged(n, t)
  {
    hide TableCorrect, HeardFrom, RunsOn;
    forall x | x in n.links
      ensures TableCorrect(n.links, x, View(n.own, n.statics, x), n.ifaces[x], Self, t[x])
    {
      NodeTable(nodes[x], n, t, x);
    }
  }

  /** The network that these holdings make. */
  ghost predicate MadeOf(n: Net, w: Holdings) {
    n.own == w.own && n.statics == w.statics && n.links == LinksFrom(w) && w.own.Keys == w.statics.Keys
  }

  /** Links on whose subnets both ends agree go both ways, which loop freedom asks for. */
  lemma AgreedLinksGoBothWays(n: Net, w: Holdings)
    requires EndsAgree(w) && MadeOf(n, w)
    ensures TwoWay(n)
  {
    forall x, y | x in n.links && y in n.links[x]
      ensures y in n.links && x in n.links[y]
    {
      var s :| s in w.own[x] && s.rid == y && s.rid != 0;
      assert WayBack(w, x, s);
    }
  }

  /** Subsystem `s`, router `x`, has its table ready and came to its database by LSUs of all other routers, with
      HELLOs in between. */
  ghost predicate HasHeardAll(s: Topology.Subsystem, w: Holdings, x: Word, start: Topo, es: seq<Event>)
    reads s, s.network, s.thisRouter
    requires w.own.Keys == w.statics.Keys
  {
    && s.ValidNet() && s.TableMatches() && s.thisRouter.rid == x
    && x in w.own && Truthful(w, x, start) && Places(w, start, x)
    && AllSettled(w, x, es) && s.Contents() == AfterAll(start, x, es)
    && forall y | y in w.own && y != x :: exists e | e in es :: e.LsuEvent? && e.host == y
  }

  lemma HeardAllRunsOn(s: Topology.Subsystem, n: Net, t: Tables, w: Holdings, x: Word, start: Topo, es: seq<Event>)
    requires Consistent(w) && MadeOf(n, w) && HasHeardAll(s, w, x, start, es)
    requires x in n.ifaces && s.interfaces == n.ifaces[x] && x in t && s.fwrdTable == t[x]
    ensures RunsOn(s, n, t, x)
  {
    hide Truthful, Places, AllSettled, SameHoldings, LinksFrom, View;
    DatabaseAgrees(w, x, start, es);
    assert s.Contents() == Topo(s.RidLinks(), s.RidSubs());
  }

  /** From LSUs to packets: when every router has taken in the LSUs of all others and recomputed its table, and
      hears the routers it is linked with, the network is converged. */
  lemma FloodedNetworkConverges(n: Net, t: Tables, w: Holdings, nodes: map<Word, Topology.Subsystem>,
                                starts: map<Word, Topo>, runs: map<Word, seq<Event>>)
    requires Consistent(w) && MadeOf(n, w) && SameRouters(n)
    requires nodes.Keys == starts.Keys == runs.Keys == t.Keys == n.links.Keys
    requires forall x | x in nodes :: HasHeardAll(nodes[x], w, x, starts[x], runs[x])
    requires forall x | x in nodes :: nodes[x].interfaces == n.ifaces[x] && nodes[x].fwrdTable == t[x]
    requires forall x, y | x in n.links && y in n.links[x] :: HeardFrom(n, x, y)
    ensures Converged(n, t)
  {
    hide HasHeardAll, RunsOn, HeardFrom, Consistent, LinksFrom, Converged;
    forall x | x in nodes
      ensures RunsOn(nodes[x], n, t, x)
    {
      HeardAllRunsOn(nodes[x], n, t, w, x, starts[x], runs[x]);
    }
    RecomputedNetworkConverges(n, t, nodes);
  }
}

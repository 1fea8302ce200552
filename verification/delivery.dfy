/** One delivery of the flooding protocol is what a router does with the LSU it is handed. */
module Delivery {
  import opened Database
  import opened FloodProtocol
  import opened Flooding
  import opened Records
  import Topology

  /** Router `r` of the protocol is the subsystem `s`. */
  ghost predicate StandsFor(s: Topology.Subsystem, n: Net, st: State, r: Word)
    reads s, s.network, s.thisRouter
  {
    && s.ValidNet() && s.thisRouter.rid == r && r in n.ifaces && s.interfaces == n.ifaces[r]
    && r in st.stored && s.SequenceOf(n.origin) == st.stored[r]
  }

  /** What the protocol makes of a copy that router `r` accepts or not. */
  lemma DeliveryTo(n: Net, st: State, c: Lsu, r: Word)
    requires c in st.flight && c.dst in n.owner && n.owner[c.dst] == r && r in n.ifaces && r in st.stored
    ensures var next := Deliver(n, st, c);
            && Next(n, st, next)
            && next.flight == st.flight - multiset{c}
               + multiset(if Accepts(st, r, c) then Forwarded(n.ifaces[r], c) else [])
            && next.stored == st.stored[r := if Accepts(st, r, c) then c.seq_ else st.stored[r]]
            && next.log == st.log + if Accepts(st, r, c) then [Taken(r, c.advs)] else []
  {
    hide Forwarded;
  }

  /** A copy of the LSU delivered to the router it is addressed to: unless the program stops, the router accepts
      it exactly when the protocol does, takes in the advertisements that the protocol logs, sends what the protocol
      puts under way, and stores what it stores. */
  method DeliverTo(s: Topology.Subsystem, ghost n: Net, ghost st: State, c: Lsu, now: int)
    returns (status: Topology.FtStatus, accepted: bool, sent: seq<Lsu>)
    requires c.rid == n.origin && c in st.flight && c.dst in n.owner
    requires StandsFor(s, n, st, n.owner[c.dst])
    modifies s`network, s`fwrdTable, s.Nodes()
    ensures !status.Aborted? ==>
              var r, next := n.owner[c.dst], Deliver(n, st, c);
              && Next(n, st, next) && accepted == Accepts(st, r, c) && StandsFor(s, n, next, r)
              && next.flight == st.flight - multiset{c} + multiset(sent)
              && next.stored == st.stored[r := s.SequenceOf(n.origin)]
    ensures accepted ==>
              && Deliver(n, st, c).log == st.log + [Taken(s.thisRouter.rid, c.advs)]
              && s.ValidNet() && s.Contents() == AfterLsu(old(s.Contents()), n.origin, c.advs, s.initTime < now)
    ensures !accepted && !status.Aborted? ==>
              Deliver(n, st, c).log == st.log && s.ValidNet() && s.Contents() == old(s.Contents())
  {
    hide Forwarded, Topology.Subsystem.ValidNet, Topology.Subsystem.SequenceOf, Topology.Subsystem.Contents, AfterLsu;
    hide Topology.Subsystem.ShortestPaths, Topology.Subsystem.Computed, Deliver, Next;
    DeliveryTo(n, st, c, n.owner[c.dst]);
    status, accepted, sent := s.HandleLsu(c, now);
  }
}

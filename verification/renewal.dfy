/** One LSU after another: the originator floods a new one before or after the last has come to rest. Routers discard
    an LSU only when it has the number they stored, not when it is older. */
module Renewal {
  import opened Flooding
  import opened Records
  import FloodProtocol

  /** `owner` tells which router answers to an address. */
  datatype Net = Net(ifaces: map<Word, seq<Iface>>, owner: map<Word, Word>, origin: Word)

  /** Router `router` took in an LSU with number `seq_` and these advertisements when the originator had sent `sent` of
      them. */
  datatype Accepted = Accepted(router: Word, seq_: bv16, sent: nat, advs: seq<Route>)

  /** The numbers stored, the copies under way, what each LSU sent so far advertised, and the acceptances in order. */
  datatype State = State(stored: map<Word, bv16>, flight: multiset<Lsu>, sent: seq<seq<Route>>, log: seq<Accepted>)

  /** The sequence number of an LSU, counting from 1. */
  function Number(k: nat): bv16 {
    (k % 0x1_0000) as bv16
  }

  ghost predicate ValidNet(n: Net) {
    n.origin in n.ifaces
  }

  ghost function Send(n: Net, s: State, advs: seq<Route>): State
    requires ValidNet(n)
  {
    s.(flight := s.flight + multiset(Originated(n.ifaces[n.origin], n.origin, Number(|s.sent| + 1), advs)),
       sent := s.sent + [advs])
  }

  ghost predicate Addressed(n: Net, s: State, c: Lsu) {
    c in s.flight && c.dst in n.owner && n.owner[c.dst] in n.ifaces && n.owner[c.dst] in s.stored
  }

  ghost function Deliver(n: Net, s: State, c: Lsu): State
    requires Addressed(n, s, c)
  {
    var r := n.owner[c.dst];
    var rest := s.flight - multiset{c};
    if c.rid != r && s.stored[r] != c.seq_ then
      State(s.stored[r := c.seq_], rest + multiset(Forwarded(n.ifaces[r], c)), s.sent,
            s.log + [Accepted(r, c.seq_, |s.sent|, c.advs)])
    else s.(flight := rest)
  }

  /** A delivery is a delivery of the protocol for one LSU, whichever LSU that is. */
  lemma DeliversLikeFlooding(n: Net, s: State, m: FloodProtocol.Net, u: FloodProtocol.State, c: Lsu)
    requires Addressed(n, s, c) && m.ifaces == n.ifaces && m.owner == n.owner
    requires u.stored == s.stored && u.flight == s.flight
    ensures var t, v := Deliver(n, s, c), FloodProtocol.Deliver(m, u, c);
            t.stored == v.stored && t.flight == v.flight
  {
    hide Forwarded;
  }

  ghost predicate Sends(n: Net, s: State, t: State)
    requires ValidNet(n)
  {
    exists advs :: t == Send(n, s, advs)
  }

  ghost predicate Delivers(n: Net, s: State, t: State) {
    exists c :: Addressed(n, s, c) && t == Deliver(n, s, c)
  }

  ghost predicate Start(n: Net, s: State) {
    s.stored.Keys == n.ifaces.Keys && s.flight == multiset{} && s.sent == [] && s.log == []
  }

  ghost predicate Run(n: Net, run: seq<State>)
    requires ValidNet(n)
  {
    && run != [] && Start(n, run[0])
    && forall k | 0 <= k < |run| - 1 :: Sends(n, run[k], run[k + 1]) || Delivers(n, run[k], run[k + 1])
  }

  /** The originator sends only when no copy of an earlier LSU is under way. */
  ghost predicate Orderly(run: seq<State>) {
    forall k | 0 <= k < |run| - 1 && |run[k].sent| < |run[k + 1].sent| :: run[k].flight == multiset{}
  }

  // ---- in order ----

  /** Acceptance `e` was of the LSU sent latest at that time, with what that one advertised. */
  ghost predicate OfLatest(sent: seq<seq<Route>>, e: Accepted) {
    0 < e.sent <= |sent| && e.seq_ == Number(e.sent) && e.advs == sent[e.sent - 1]
  }

  /** Every acceptance so far was of the latest LSU, and each router took each of them once. */
  ghost predicate InOrder(sent: seq<seq<Route>>, log: seq<Accepted>) {
    && (forall e | e in log :: OfLatest(sent, e))
    && (forall i, j | 0 <= i < j < |log| && log[i].router == log[j].router :: log[i].sent < log[j].sent)
  }

  /** Copy `c` is of the LSU sent latest. */
  ghost predicate CopyOfLatest(n: Net, sent: seq<seq<Route>>, c: Lsu) {
    c.rid == n.origin && c.seq_ == Number(|sent|) && 0 < |sent| && c.advs == sent[|sent| - 1]
  }

  ghost predicate Inv(n: Net, s: State) {
    && s.stored.Keys == n.ifaces.Keys && InOrder(s.sent, s.log)
    && (forall c | c in s.flight :: CopyOfLatest(n, s.sent, c))
    && (forall e | e in s.log && e.sent == |s.sent| :: e.router in s.stored && s.stored[e.router] == Number(|s.sent|))
  }

  lemma SendKeepsInv(n: Net, s: State, advs: seq<Route>)
    requires ValidNet(n) && Inv(n, s) && s.flight == multiset{}
    ensures Inv(n, Send(n, s, advs))
  {
    hide Number, Copies;
    var p := Lsu(n.origin, Number(|s.sent| + 1), INIT_TTL, INIT_TTL, 0, 0, advs);
    CopiesCarry(n.ifaces[n.origin], p, None);
    assert forall c | c in Send(n, s, advs).flight :: c in Copies(n.ifaces[n.origin], p, None);
  }

  lemma ForwardedOfLatest(n: Net, sent: seq<seq<Route>>, ifs: seq<Iface>, c: Lsu)
    requires CopyOfLatest(n, sent, c)
    ensures forall d | d in Forwarded(ifs, c) :: CopyOfLatest(n, sent, d)
  {
    hide Copies, Dec8, Number;
    CopiesCarry(ifs, c.(ttl := Dec8(c.ttl), ipTtl := Dec8(c.ipTtl)), Some(c.src));
  }

  lemma LogInOrder(sent: seq<seq<Route>>, log: seq<Accepted>, e: Accepted)
    requires InOrder(sent, log) && OfLatest(sent, e) && e.sent == |sent|
    requires forall d | d in log && d.router == e.router :: d.sent != |sent|
    ensures InOrder(sent, log + [e])
  {
    hide OfLatest;
    forall i | 0 <= i < |log|
      ensures log[i].router == e.router ==> log[i].sent < e.sent
    {
      assert log[i] in log && OfLatest(sent, log[i]);
      AtMostSent(sent, log[i]);
    }
  }

  lemma AtMostSent(sent: seq<seq<Route>>, e: Accepted)
    requires OfLatest(sent, e)
    ensures e.sent <= |sent|
  {
  }

  lemma DeliverKeepsInv(n: Net, s: State, c: Lsu)
    requires Inv(n, s) && Addressed(n, s, c)
    ensures Inv(n, Deliver(n, s, c))
  {
    hide Number, Forwarded, InOrder;
    var r, t := n.owner[c.dst], Deliver(n, s, c);
    assert CopyOfLatest(n, s.sent, c);
    ForwardedOfLatest(n, s.sent, n.ifaces[r], c);
    assert forall d | d in t.flight :: d in s.flight || d in Forwarded(n.ifaces[r], c);
    if t.log != s.log {
      var e := Accepted(r, c.seq_, |s.sent|, c.advs);
      LogInOrder(s.sent, s.log, e);
      assert forall d | d in t.log :: d in s.log || d == e;
    }
  }

  lemma {:induction false} OrderlyKeepsInv(n: Net, run: seq<State>, k: nat)
    requires ValidNet(n) && Run(n, run) && Orderly(run) && k < |run|
    ensures Inv(n, run[k])
  {
    if k > 0 {
      OrderlyKeepsInv(n, run, k - 1);
      var s, t := run[k - 1], run[k];
      assert Sends(n, s, t) || Delivers(n, s, t);
      hide Run, Inv, Deliver;
      if Sends(n, s, t) {
        var advs :| t == Send(n, s, advs);
        SendKeepsInv(n, s, advs);
      } else {
        var c :| Addressed(n, s, c) && t == Deliver(n, s, c);
        DeliverKeepsInv(n, s, c);
      }
    }
  }

  /** When each LSU has come to rest before the next one is sent, routers take in the latest only, with what it
      advertised, each once and in the order they were sent, over any number of LSUs. */
  lemma OrderlyTakesLatest(n: Net, run: seq<State>, k: nat)
    requires ValidNet(n) && Run(n, run) && Orderly(run) && k < |run|
    ensures InOrder(run[k].sent, run[k].log)
  {
    OrderlyKeepsInv(n, run, k);
  }
}

/** No packet handed to the ARP code is sent twice, and none disappears, except those handed over after
    the resolver thread has sent its buffers and before its last section: such a packet is lost, or queueing it
    reads freed memory. */
module ArpConservation {
  import opened ArpProtocol
  import opened ArpQueue
  import opened PacketLists
  import opened Records

  function Reverse<T>(s: seq<T>): (r: seq<T>)
    ensures |r| == |s|
  {
    if s == [] then [] else Reverse(s[1..]) + [s[0]]
  }

  /** Packets of one kind given for an address, in order. */
  function GivenFor(g: seq<Given>, ip: Word, lsu: bool): seq<Packet> {
    if g == [] then []
    else
      var last := g[|g| - 1];
      GivenFor(g[..|g| - 1], ip, lsu) + if last.ip == ip && last.packet.lsu == lsu then [last.packet] else []
  }

  /** Those of them given late. */
  function LateFor(g: seq<Given>, ip: Word, lsu: bool): seq<Packet> {
    if g == [] then []
    else
      var last := g[|g| - 1];
      LateFor(g[..|g| - 1], ip, lsu)
      + if last.ip == ip && last.packet.lsu == lsu && last.late then [last.packet] else []
  }

  /** The packets of one kind that an event settles for an address, in the order they were given: data
      packets go first-in first-out, LSUs last-in first-out. */
  function Settled(e: Event, ip: Word, lsu: bool): seq<Packet> {
    if e.ip != ip then []
    else match e
      case SentData(_, b) => if lsu then [] else b
      case Icmps(_, b) => if lsu then [] else b
      case LostData(_, b) => if lsu then [] else b
      case SentLsus(_, b) => if lsu then Reverse(b) else []
      case DroppedLsus(_, b) => if lsu then Reverse(b) else []
      case LostLsus(_, b) => if lsu then Reverse(b) else []
  }

  function SettledFor(log: seq<Event>, ip: Word, lsu: bool): seq<Packet> {
    if log == [] then []
    else SettledFor(log[..|log| - 1], ip, lsu) + Settled(log[|log| - 1], ip, lsu)
  }

  predicate IsLoss(e: Event) {
    e.LostData? || e.LostLsus?
  }

  function LostFor(log: seq<Event>, ip: Word, lsu: bool): seq<Packet> {
    if log == [] then []
    else LostFor(log[..|log| - 1], ip, lsu) + if IsLoss(log[|log| - 1]) then Settled(log[|log| - 1], ip, lsu) else []
  }

  /** The packets of one kind waiting in an entry, in the order they were given. */
  function Waiting(e: ArpEntry, lsu: bool): seq<Packet> {
    if lsu then Reverse(e.lsuBuf) else e.pacBuf
  }

  function WaitingFor(pending: seq<ArpEntry>, ip: Word, lsu: bool): seq<Packet> {
    match PlaceOf(pending, ip)
    case Some(i) => Waiting(pending[i], lsu)
    case None => []
  }

  /** Everything given is settled or waiting, in order; what is lost is what was given late. */
  ghost predicate Conserved(s: State, ip: Word, lsu: bool) {
    && GivenFor(s.given, ip, lsu) == SettledFor(s.log, ip, lsu) + WaitingFor(s.pending, ip, lsu)
    && LateFor(s.given, ip, lsu) == LostFor(s.log, ip, lsu)
       + (if HasDrained(s, ip) then WaitingFor(s.pending, ip, lsu) else [])
  }

  // ---- packets handed over ----

  lemma BufferedWaits(e: ArpEntry, p: Packet, lsu: bool)
    ensures Waiting(Buffered(e, p), lsu) == Waiting(e, lsu) + if p.lsu == lsu then [p] else []
  {
    if p.lsu && lsu {
      assert ([p] + e.lsuBuf)[1..] == e.lsuBuf;
    }
  }

  lemma PlaceIs(pending: seq<ArpEntry>, i: nat)
    requires i < |pending| && forall j, k | 0 <= j < k < |pending| :: pending[j].ip != pending[k].ip
    ensures PlaceOf(pending, pending[i].ip) == Some(i)
  {
  }

  /** Queueing adds the packet to its own address and changes nothing for the others. */
  lemma QueuedWaits(pending: seq<ArpEntry>, ip: Word, p: Packet, x: Word, lsu: bool)
    requires forall j, k | 0 <= j < k < |pending| :: pending[j].ip != pending[k].ip
    ensures WaitingFor(Queued(pending, ip, p).0, x, lsu) ==
            WaitingFor(pending, x, lsu) + if x == ip && p.lsu == lsu then [p] else []
  {
    hide Waiting;
    var (q, i) := Queued(pending, ip, p);
    var e := if i < |pending| then pending[i] else NewEntry(ip);
    BufferedWaits(e, p, lsu);
    SameBuffers(Handed(e, p), Buffered(e, p), lsu);
    EmptyWaits(ip, lsu);
    assert forall j | 0 <= j < |pending| && j != i :: q[j] == pending[j];
    if x == ip {
      PlaceIs(q, i);
    } else {
      OtherPlace(pending, q, i, x);
    }
  }

  lemma SameBuffers(a: ArpEntry, b: ArpEntry, lsu: bool)
    requires a.pacBuf == b.pacBuf && a.lsuBuf == b.lsuBuf
    ensures Waiting(a, lsu) == Waiting(b, lsu)
  {
  }

  lemma EmptyWaits(ip: Word, lsu: bool)
    ensures Waiting(NewEntry(ip), lsu) == []
  {
  }

  /** Changing or adding the entry at place `i` does not move the entries of other addresses. */
  lemma OtherPlace(a: seq<ArpEntry>, b: seq<ArpEntry>, i: nat, x: Word)
    requires |a| <= |b| <= |a| + 1 && i < |b| && (|a| < |b| ==> i == |a|)
    requires b[i].ip != x && (i < |a| ==> a[i].ip != x)
    requires forall j | 0 <= j < |a| && j != i :: b[j] == a[j]
    ensures PlaceOf(b, x) == PlaceOf(a, x)
    ensures PlaceOf(a, x).Some? ==> b[PlaceOf(a, x).value] == a[PlaceOf(a, x).value]
  {
  }

  lemma DrainedAfterHandOver(s: State, ip: Word, p: Packet, x: Word)
    requires ThreadInv(s) && !ReadsFreedFor(s.pending, ip, p)
    ensures HasDrained(HandOver(s, ip, p), x) == HasDrained(s, x)
  {
    hide Queued, StartsThread;
    var s' := HandOver(s, ip, p);
    QueuedEntries(s.pending, ip, p);
    forall t | 0 <= t < |s.threads|
      ensures s.threads[t].entry < |s.pending| && s'.pending[s.threads[t].entry].ip == s.pending[s.threads[t].entry].ip
    {
      assert Counters(s, s.threads[t]);
    }
    if HasDrained(s, x) {
      var t: nat :| DrainedBy(s, t, x);
      assert DrainedBy(s', t, x);
    }
    if HasDrained(s', x) {
      var t: nat :| DrainedBy(s', t, x);
      assert DrainedBy(s, t, x);
    }
  }

  lemma OneMoreGiven(g: seq<Given>, n: Given, ip: Word, lsu: bool)
    ensures GivenFor(g + [n], ip, lsu) ==
            GivenFor(g, ip, lsu) + if n.ip == ip && n.packet.lsu == lsu then [n.packet] else []
    ensures LateFor(g + [n], ip, lsu) ==
            LateFor(g, ip, lsu) + if n.ip == ip && n.packet.lsu == lsu && n.late then [n.packet] else []
  {
    assert (g + [n])[..|g|] == g;
  }

  lemma AppendBoth<T>(g: seq<T>, s: seq<T>, w: seq<T>, p: seq<T>)
    requires g == s + w
    ensures g + p == s + (w + p)
  {
  }

  lemma HandOverConserves(s: State, ip: Word, p: Packet, x: Word, lsu: bool)
    requires ThreadInv(s) && !ReadsFreedFor(s.pending, ip, p) && Conserved(s, x, lsu)
    ensures Conserved(HandOver(s, ip, p), x, lsu)
  {
    var s' := HandOver(s, ip, p);
    var more := if x == ip && p.lsu == lsu then [p] else [];
    var drained := HasDrained(s, x);
    QueuedWaits(s.pending, ip, p, x, lsu);
    DrainedAfterHandOver(s, ip, p, x);
    OneMoreGiven(s.given, Given(ip, p, HasDrained(s, ip)), x, lsu);
    hide Queued, StartsThread, ReadsFreedFor, HasDrained, WaitingFor, ThreadInv, GivenFor, LateFor, SettledFor, LostFor;
    AppendBoth(GivenFor(s.given, x, lsu), SettledFor(s.log, x, lsu), WaitingFor(s.pending, x, lsu), more);
    assert GivenFor(s'.given, x, lsu) == SettledFor(s'.log, x, lsu) + WaitingFor(s'.pending, x, lsu);
    if drained {
      AppendBoth(LateFor(s.given, x, lsu), LostFor(s.log, x, lsu), WaitingFor(s.pending, x, lsu), more);
      assert LateFor(s'.given, x, lsu) == LateFor(s.given, x, lsu) + more;
    } else {
      assert LateFor(s'.given, x, lsu) == LateFor(s.given, x, lsu);
    }
  }

  // ---- steps of resolver threads ----

  lemma TwoMoreEvents(log: seq<Event>, a: Event, b: Event, ip: Word, lsu: bool)
    ensures SettledFor(log + [a, b], ip, lsu) == SettledFor(log, ip, lsu) + Settled(a, ip, lsu) + Settled(b, ip, lsu)
    ensures LostFor(log + [a, b], ip, lsu) ==
            LostFor(log, ip, lsu) + (if IsLoss(a) then Settled(a, ip, lsu) else [])
              + (if IsLoss(b) then Settled(b, ip, lsu) else [])
  {
    hide Settled;
    assert (log + [a, b])[..|log| + 1] == log + [a];
    assert (log + [a])[..|log|] == log;
  }

  /** A thread step does not move entries, and leaves the packets of other addresses alone. */
  lemma TouchedPlaces(s: State, t: nat, s': State, x: Word)
    requires ThreadInv(s) && Touches(s, t, s')
    ensures PlaceOf(s'.pending, x) == PlaceOf(s.pending, x)
    ensures PlaceOf(s.pending, s.pending[s.threads[t].entry].ip) == Some(s.threads[t].entry)
  {
    PlaceIs(s.pending, s.threads[t].entry);
    assert forall e | 0 <= e < |s.pending| :: s'.pending[e].ip == s.pending[e].ip;
  }

  /** Only the one live thread of an entry can have drained it. */
  lemma DrainedIsTheThread(s: State, t: nat, x: Word)
    requires ThreadInv(s) && t < |s.threads| && LiveFor(s, t, s.threads[t].entry)
    ensures s.threads[t].entry < |s.pending|
    ensures s.pending[s.threads[t].entry].ip == x ==> (HasDrained(s, x) <==> s.threads[t].phase.Sent?)
  {
    assert Counters(s, s.threads[t]);
    assert s.pending[s.threads[t].entry].ip == x && s.threads[t].phase.Sent? ==> DrainedBy(s, t, x);
    if s.pending[s.threads[t].entry].ip == x && HasDrained(s, x) {
      var u: nat :| DrainedBy(s, u, x);
      assert LiveFor(s, u, s.threads[t].entry);
    }
  }

  /** For other addresses nothing changes. */
  lemma OthersDrained(s: State, t: nat, s': State, x: Word)
    requires Touches(s, t, s') && s.pending[s.threads[t].entry].ip != x
    ensures HasDrained(s', x) == HasDrained(s, x)
  {
    assert forall e | 0 <= e < |s.pending| :: s'.pending[e].ip == s.pending[e].ip;
    if HasDrained(s, x) {
      var u: nat :| DrainedBy(s, u, x);
      assert DrainedBy(s', u, x);
    }
    if HasDrained(s', x) {
      var u: nat :| DrainedBy(s', u, x);
      assert DrainedBy(s, u, x);
    }
  }

  /** A thread that ends leaves nobody drained behind. */
  lemma NobodyDrained(s: State, t: nat, s': State)
    requires ThreadInv(s) && Touches(s, t, s') && LiveFor(s, t, s.threads[t].entry) && !s'.threads[t].phase.Sent?
    ensures !HasDrained(s', s.pending[s.threads[t].entry].ip)
  {
    var x := s.pending[s.threads[t].entry].ip;
    if HasDrained(s', x) {
      var u: nat :| DrainedBy(s', u, x);
      assert LiveFor(s, u, s.threads[t].entry);
    }
  }

  /** A step that logs nothing. */
  lemma QuietConserves(s: State, t: nat, s': State, x: Word, lsu: bool)
    requires ThreadInv(s) && Touches(s, t, s') && LiveFor(s, t, s.threads[t].entry) && Conserved(s, x, lsu)
    requires s'.log == s.log && s'.given == s.given
    requires !s.threads[t].phase.Sent? && !s'.threads[t].phase.Sent?
    requires var e := s.threads[t].entry;
             s'.pending[e].pacBuf == s.pending[e].pacBuf && s'.pending[e].lsuBuf == s.pending[e].lsuBuf
    ensures Conserved(s', x, lsu)
  {
    var e := s.threads[t].entry;
    TouchedPlaces(s, t, s', x);
    SameBuffers(s.pending[e], s'.pending[e], lsu);
    DrainedIsTheThread(s, t, x);
    if s.pending[e].ip == x {
      NobodyDrained(s, t, s');
    } else {
      OthersDrained(s, t, s', x);
    }
    hide ThreadInv, HasDrained, GivenFor, LateFor, SettledFor, LostFor, Waiting;
  }

  /** The events of a step that settles everything waiting in the thread's entry. */
  ghost predicate Settles(s: State, t: nat, s': State, a: Event, b: Event, x: Word, lsu: bool)
    requires Touches(s, t, s')
  {
    var e := s.threads[t].entry;
    && s'.log == s.log + [a, b] && s'.given == s.given && s.threads[t].phase != s'.threads[t].phase
    && s'.pending[e].pacBuf == [] && s'.pending[e].lsuBuf == []
    && a.ip == b.ip == s.pending[e].ip && (s.threads[t].phase.Sent? <==> IsLoss(a)) && (IsLoss(a) <==> IsLoss(b))
    && (s.pending[e].ip == x ==> Settled(a, x, lsu) + Settled(b, x, lsu) == Waiting(s.pending[e], lsu))
  }

  lemma SettlingConserves(s: State, t: nat, s': State, a: Event, b: Event, x: Word, lsu: bool)
    requires ThreadInv(s) && Touches(s, t, s') && LiveFor(s, t, s.threads[t].entry) && Conserved(s, x, lsu)
    requires Settles(s, t, s', a, b, x, lsu)
    ensures Conserved(s', x, lsu)
  {
    hide ThreadInv, GivenFor, LateFor, SettledFor, LostFor, Settled, HasDrained, WaitingFor;
    TwoMoreEvents(s.log, a, b, x, lsu);
    if s.pending[s.threads[t].entry].ip == x {
      SettlingOwn(s, t, s', a, b, lsu);
    } else {
      SettlingOthers(s, t, s', a, b, x, lsu);
    }
  }

  /** The address of the thread: everything waiting has moved to the log. */
  lemma SettlingOwn(s: State, t: nat, s': State, a: Event, b: Event, lsu: bool)
    requires ThreadInv(s) && Touches(s, t, s') && LiveFor(s, t, s.threads[t].entry)
    requires Settles(s, t, s', a, b, s.pending[s.threads[t].entry].ip, lsu)
    ensures var x := s.pending[s.threads[t].entry].ip;
            && WaitingFor(s.pending, x, lsu) == Settled(a, x, lsu) + Settled(b, x, lsu)
            && WaitingFor(s'.pending, x, lsu) == []
            && HasDrained(s, x) == IsLoss(a) && (!s'.threads[t].phase.Sent? ==> !HasDrained(s', x))
  {
    var x := s.pending[s.threads[t].entry].ip;
    TouchedPlaces(s, t, s', x);
    DrainedIsTheThread(s, t, x);
    if !s'.threads[t].phase.Sent? {
      NobodyDrained(s, t, s');
    }
    hide ThreadInv, HasDrained, Settled;
  }

  lemma SettlingOthers(s: State, t: nat, s': State, a: Event, b: Event, x: Word, lsu: bool)
    requires ThreadInv(s) && Touches(s, t, s') && s.pending[s.threads[t].entry].ip != x
    requires Settles(s, t, s', a, b, x, lsu)
    ensures Settled(a, x, lsu) == [] && Settled(b, x, lsu) == []
    ensures WaitingFor(s'.pending, x, lsu) == WaitingFor(s.pending, x, lsu) && HasDrained(s', x) == HasDrained(s, x)
  {
    TouchedPlaces(s, t, s', x);
    OthersDrained(s, t, s', x);
    hide ThreadInv, HasDrained, Waiting;
  }

  /** However it is settled, a whole entry is settled in the order its packets were given. */
  lemma WholeEntrySettled(e: ArpEntry, lsu: bool)
    ensures Settled(SentData(e.ip, e.pacBuf), e.ip, lsu) + Settled(SentLsus(e.ip, e.lsuBuf), e.ip, lsu) ==
            Waiting(e, lsu)
    ensures Settled(Icmps(e.ip, e.pacBuf), e.ip, lsu) + Settled(DroppedLsus(e.ip, e.lsuBuf), e.ip, lsu) ==
            Waiting(e, lsu)
    ensures Settled(LostData(e.ip, e.pacBuf), e.ip, lsu) + Settled(LostLsus(e.ip, e.lsuBuf), e.ip, lsu) ==
            Waiting(e, lsu)
  {
  }

  lemma SendConserves(s: State, t: nat, x: Word, lsu: bool)
    requires ThreadInv(s) && ValidThread(s, t) && s.threads[t].phase.Found? && Conserved(s, x, lsu)
    ensures Conserved(SendBuffers(s, t), x, lsu)
  {
    ThreadStepKeepsThreadInv(s, t, SendBuffers(s, t));
    hide ThreadInv, Conserved, Settled, Waiting;
    var e := s.pending[s.threads[t].entry];
    WholeEntrySettled(e, lsu);
    SettlingConserves(s, t, SendBuffers(s, t), SentData(e.ip, e.pacBuf), SentLsus(e.ip, e.lsuBuf), x, lsu);
  }

  lemma EndSettles(s: State, t: nat, x: Word, lsu: bool)
    requires ValidThread(s, t) && (s.threads[t].phase.Sent? || s.threads[t].phase.TimedOut?)
    requires Touches(s, t, End(s, t))
    ensures var e := s.pending[s.threads[t].entry];
            if s.threads[t].phase.Sent?
            then Settles(s, t, End(s, t), LostData(e.ip, e.pacBuf), LostLsus(e.ip, e.lsuBuf), x, lsu)
            else Settles(s, t, End(s, t), Icmps(e.ip, e.pacBuf), DroppedLsus(e.ip, e.lsuBuf), x, lsu)
  {
    WholeEntrySettled(s.pending[s.threads[t].entry], lsu);
  }

  lemma EndConserves(s: State, t: nat, x: Word, lsu: bool)
    requires ThreadInv(s) && ValidThread(s, t) && (s.threads[t].phase.Sent? || s.threads[t].phase.TimedOut?)
    requires Conserved(s, x, lsu)
    ensures Conserved(End(s, t), x, lsu)
  {
    ThreadStepKeepsThreadInv(s, t, End(s, t));
    var e := s.pending[s.threads[t].entry];
    assert LiveFor(s, t, s.threads[t].entry);
    hide ThreadInv, Conserved, Settles, Touches, End;
    EndSettles(s, t, x, lsu);
    if s.threads[t].phase.Sent? {
      SettlingConserves(s, t, End(s, t), LostData(e.ip, e.pacBuf), LostLsus(e.ip, e.lsuBuf), x, lsu);
    } else {
      SettlingConserves(s, t, End(s, t), Icmps(e.ip, e.pacBuf), DroppedLsus(e.ip, e.lsuBuf), x, lsu);
    }
  }

  lemma ThreadStepConserves(s: State, t: nat, s': State, x: Word, lsu: bool)
    requires ThreadInv(s) && ThreadStep(s, t, s') && Conserved(s, x, lsu)
    ensures Conserved(s', x, lsu)
  {
    hide ThreadInv, Conserved, Drained, Emptied;
    if s.threads[t].phase.Found? {
      SendConserves(s, t, x, lsu);
    } else if s.threads[t].phase.Sent? || s.threads[t].phase.TimedOut? {
      EndConserves(s, t, x, lsu);
    } else {
      ThreadStepKeepsThreadInv(s, t, s');
      QuietConserves(s, t, s', x, lsu);
    }
  }

  lemma InitConserved(x: Word, lsu: bool)
    ensures Conserved(INIT, x, lsu)
  {
  }

  lemma {:induction false} RunConserves(run: seq<State>, k: nat, x: Word, lsu: bool)
    requires Run(run) && k < |run| && !run[k].faulted
    ensures Conserved(run[k], x, lsu)
  {
    assert k > 0 ==> Next(run[k - 1], run[k]);
    hide Next, Conserved, ThreadInv;
    if k == 0 {
      InitConserved(x, lsu);
    } else {
      RunKeepsThreadInv(run, k - 1);
      RunConserves(run, k - 1, x, lsu);
      NextConserves(run[k - 1], run[k], x, lsu);
    }
  }

  lemma FaultingHandOver(s: State, ip: Word, p: Packet)
    requires !s.faulted
    ensures HandOver(s, ip, p).faulted <==> ReadsFreedFor(s.pending, ip, p)
  {
  }

  lemma NextConserves(s: State, s': State, x: Word, lsu: bool)
    requires ThreadInv(s) && Next(s, s') && !s'.faulted && Conserved(s, x, lsu)
    ensures Conserved(s', x, lsu)
  {
    hide ThreadInv, HandOver, ThreadStep, Conserved;
    if ip, p :| s' == HandOver(s, ip, p) {
      assert !ReadsFreedFor(s.pending, ip, p) by {
        FaultingHandOver(s, ip, p);
      }
      HandOverConserves(s, ip, p, x, lsu);
    } else {
      var t: nat :| ThreadStep(s, t, s');
      ThreadStepConserves(s, t, s', x, lsu);
    }
  }

  /** Once no resolver thread works on an address, every packet given for it has been settled exactly
      once: data packets in the order they were given, LSUs in reverse within each batch. Nothing has
      been lost if and only if nothing was given late. (In a run that has not read freed memory; see
      `FaultIsLateData` for one that has.) */
  lemma RoundSettlesEverything(run: seq<State>, k: nat, x: Word, lsu: bool)
    requires Run(run) && k < |run| && !run[k].faulted
    requires PlaceOf(run[k].pending, x).Some? ==> !HasThread(run[k], PlaceOf(run[k].pending, x).value)
    ensures GivenFor(run[k].given, x, lsu) == SettledFor(run[k].log, x, lsu)
    ensures LostFor(run[k].log, x, lsu) == LateFor(run[k].given, x, lsu)
    ensures LostFor(run[k].log, x, lsu) == [] <==>
            forall i | 0 <= i < |run[k].given| :: !IsLate(run[k].given[i], x, lsu)
  {
    var s := run[k];
    RunKeepsThreadInv(run, k);
    RunConserves(run, k, x, lsu);
    assert WaitingFor(s.pending, x, lsu) == [];
    NoneLate(s.given, x, lsu);
  }

  ghost predicate IsLate(g: Given, x: Word, lsu: bool) {
    g.ip == x && g.packet.lsu == lsu && g.late
  }

  lemma {:induction false} NoneLate(g: seq<Given>, x: Word, lsu: bool)
    ensures LateFor(g, x, lsu) == [] <==> forall i | 0 <= i < |g| :: !IsLate(g[i], x, lsu)
  {
    if g != [] {
      NoneLate(g[..|g| - 1], x, lsu);
    }
  }

  // ---- reading freed memory ----

  /** A run reads freed memory in its last step only, by a data packet given late for an address whose thread
      has sent data packets. So a run in which nothing was given late does not. */
  lemma FaultIsLateData(run: seq<State>, k: nat)
    requires Run(run) && k < |run| && run[k].faulted
    ensures k == |run| - 1 && k > 0 && |run[k].given| > 0
    ensures var g := run[k].given[|run[k].given| - 1];
            g.late && !g.packet.lsu && DataSent(run[k - 1], g.ip)
  {
    assert k < |run| - 1 ==> Next(run[k], run[k + 1]);
    var s := run[k - 1];
    assert Next(s, run[k]);
    var ip, p :| run[k] == HandOver(s, ip, p);
    hide Next;
    ReadsFreedExactly(run, k - 1, ip, p);
    var t: nat :| DataSentBy(s, t, ip);
    assert DrainedBy(s, t, ip);
  }

  // ---- what becomes of a late packet ----

  /** A round for one packet: it is queued in a new entry, and sent by the thread that is started for it. */
  function Round(ip: Word, p: Packet): seq<State> {
    var e := Buffered(NewEntry(ip), p);
    var given := [Given(ip, p, false)];
    var events := [SentData(ip, e.pacBuf), SentLsus(ip, e.lsuBuf)];
    [INIT,
     State([e], [Thread(0, Starting, 0)], [], given, false),
     State([e], [Thread(0, Looking(1), 1)], [], given, false),
     State([e], [Thread(0, Found(1), 1)], [], given, false),
     State([Drained(e)], [Thread(0, Sent(!p.lsu), 1)], events, given, false)]
  }

  lemma RoundRuns(ip: Word, p: Packet)
    ensures Run(Round(ip, p))
  {
    var run := Round(ip, p);
    assert HandOver(INIT, ip, p) == run[1];
    assert Begin(run[1], 0) == run[2];
    assert Look(run[2], 0, true) == run[3];
    assert SendBuffers(run[3], 0) == run[4];
    var t: nat := 0;
    assert forall k | k in {1, 2, 3} :: ThreadStep(run[k], t, run[k + 1]);
    hide ThreadStep, HandOver;
    forall k | 0 <= k < |run| - 1
      ensures Next(run[k], run[k + 1])
    {
      assert k in {0, 1, 2, 3};
    }
  }

  /** The second packet is handed over after that, and then the thread runs its last section. */
  ghost function LateRun(ip: Word, p: Packet, q: Packet): seq<State> {
    var late := HandOver(Round(ip, p)[4], ip, q);
    Round(ip, p) + if late.faulted then [late] else [late, End(late, 0)]
  }

  lemma OneMoreStep(run: seq<State>, s: State)
    requires Run(run) && Next(run[|run| - 1], s)
    ensures Run(run + [s])
  {
  }

  /** The state after the late packet was queued. */
  lemma LateHandOver(ip: Word, p: Packet, q: Packet)
    requires p.lsu || q.lsu
    ensures var s := Round(ip, p)[4]; var e := Handed(s.pending[0], q);
            && HandOver(s, ip, q) == s.(pending := [e], given := s.given + [Given(ip, q, true)])
            && e.ip == ip && e.pacBuf == (if q.lsu then [] else [q]) && e.lsuBuf == if q.lsu then [q] else []
  {
    var s := Round(ip, p)[4];
    assert PlaceOf(s.pending, ip) == Some(0);
    assert DrainedBy(s, 0, ip);
    assert s.pending[0 := Handed(s.pending[0], q)] == [Handed(s.pending[0], q)];
  }

  lemma LateIsLogged(s: State, e: ArpEntry, q: Packet)
    requires forall e | e in s.log :: !IsLoss(e)
    requires e.pacBuf == (if q.lsu then [] else [q]) && e.lsuBuf == if q.lsu then [q] else []
    ensures LostFor(s.log + [LostData(e.ip, e.pacBuf), LostLsus(e.ip, e.lsuBuf)], e.ip, q.lsu) == [q]
  {
    hide LostFor, SettledFor;
    TwoMoreEvents(s.log, LostData(e.ip, e.pacBuf), LostLsus(e.ip, e.lsuBuf), e.ip, q.lsu);
    NothingLost(s.log, e.ip, q.lsu);
    assert Reverse([q]) == [] + [q];
  }

  lemma {:induction false} NothingLost(log: seq<Event>, ip: Word, lsu: bool)
    requires forall e | e in log :: !IsLoss(e)
    ensures LostFor(log, ip, lsu) == []
  {
    if log != [] {
      NothingLost(log[..|log| - 1], ip, lsu);
    }
  }

  lemma RoundEnd(ip: Word, p: Packet)
    ensures |Round(ip, p)| == 5 && !Round(ip, p)[4].faulted
    ensures Round(ip, p)[4].threads == [Thread(0, Sent(!p.lsu), 1)] && |Round(ip, p)[4].pending| == 1
    ensures forall e | e in Round(ip, p)[4].log :: !IsLoss(e)
  {
  }

  /** The only thread of the only entry runs its last section. */
  lemma LastSection(s: State)
    requires !s.faulted && |s.pending| == 1 && |s.threads| == 1 && s.threads[0].entry == 0 && s.threads[0].phase.Sent?
    ensures var e, last := s.pending[0], End(s, 0);
            && Next(s, last) && !last.faulted && !HasThread(last, 0)
            && last.log == s.log + [LostData(e.ip, e.pacBuf), LostLsus(e.ip, e.lsuBuf)]
  {
    assert ThreadStep(s, 0, End(s, 0));
  }

  /** A data packet that comes after data packets were sent makes the code read freed memory. */
  lemma LateDataFaults(ip: Word, p: Packet, q: Packet)
    requires !p.lsu && !q.lsu
    ensures var run := LateRun(ip, p, q); Run(run) && run[|run| - 1].faulted
  {
    var s := Round(ip, p)[4];
    var late := HandOver(s, ip, q);
    RoundRuns(ip, p);
    assert PlaceOf(s.pending, ip) == Some(0);
    assert Next(s, late);
    OneMoreStep(Round(ip, p), late);
  }

  lemma LateRuns(ip: Word, p: Packet, q: Packet)
    requires p.lsu || q.lsu
    ensures var late := HandOver(Round(ip, p)[4], ip, q);
            LateRun(ip, p, q) == Round(ip, p) + [late, End(late, 0)] && Run(LateRun(ip, p, q))
  {
    var s := Round(ip, p)[4];
    var late := HandOver(s, ip, q);
    RoundRuns(ip, p);
    RoundEnd(ip, p);
    LateHandOver(ip, p, q);
    assert Next(s, late);
    hide Round, HandOver, Run, Handed, End;
    LastSection(late);
    OneMoreStep(Round(ip, p), late);
    OneMoreStep(Round(ip, p) + [late], End(late, 0));
    assert Round(ip, p) + [late] + [End(late, 0)] == Round(ip, p) + [late, End(late, 0)];
  }

  /** Any other packet that comes after the sending is lost. */
  lemma LatePacketIsLost(ip: Word, p: Packet, q: Packet)
    requires p.lsu || q.lsu
    ensures var run := LateRun(ip, p, q); var last := run[|run| - 1];
            Run(run) && !last.faulted && LostFor(last.log, ip, q.lsu) == [q] && !HasThread(last, 0)
  {
    var s := Round(ip, p)[4];
    var late := HandOver(s, ip, q);
    RoundEnd(ip, p);
    LateHandOver(ip, p, q);
    hide Round, HandOver, LostFor, Run, Handed, LateRun, End, Next, HasThread;
    LateRuns(ip, p, q);
    LateIsLogged(s, late.pending[0], q);
    LastSection(late);
  }
}

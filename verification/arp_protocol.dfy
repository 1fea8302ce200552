/** Address resolution as a state machine: any number of threads hand packets over, and resolver
    threads run in between, one critical section at a time. */
module ArpProtocol {
  import opened ArpQueue
  import opened PacketLists
  import opened Records

  /** Where a resolver thread stands. `Looking(i)` is about to look up the address in round `i` of its
      loop, `Found` and `Missed` have looked it up and not yet taken the lock again, `Sent` has sent
      everything, a data packet with it when `data`, and not yet run its last section, and `TimedOut` has
      sent five requests in vain. */
  datatype Phase = Starting | Looking(i: int) | Found(i: int) | Missed(i: int) | Sent(data: bool) | TimedOut | Done

  /** A resolver thread for the entry at a place, with the number of requests it has sent. */
  datatype Thread = Thread(entry: nat, phase: Phase, requests: int)

  /** What happens to packets, in batches. `Lost` is a buffer overwritten without being sent. */
  datatype Event =
    | SentData(ip: Word, packets: seq<Packet>)
    | SentLsus(ip: Word, packets: seq<Packet>)
    | Icmps(ip: Word, packets: seq<Packet>)
    | DroppedLsus(ip: Word, packets: seq<Packet>)
    | LostData(ip: Word, packets: seq<Packet>)
    | LostLsus(ip: Word, packets: seq<Packet>)

  /** A packet handed over for an address; `late` when that address's thread was past its sending. */
  datatype Given = Given(ip: Word, packet: Packet, late: bool)

  /** `faulted` once freed memory was read: what the program does from there on is undefined. */
  datatype State = State(pending: seq<ArpEntry>, threads: seq<Thread>, log: seq<Event>, given: seq<Given>,
                         faulted: bool)

  const INIT: State := State([], [], [], [], false)

  /** Thread `t` has sent the buffers of the address and not ended yet. */
  ghost predicate DrainedBy(s: State, t: nat, ip: Word) {
    && t < |s.threads| && s.threads[t].phase.Sent?
    && s.threads[t].entry < |s.pending| && s.pending[s.threads[t].entry].ip == ip
  }

  ghost predicate HasDrained(s: State, ip: Word) {
    exists t: nat :: DrainedBy(s, t, ip)
  }

  // ---- steps ----

  ghost function HandOver(s: State, ip: Word, p: Packet): State {
    var given := s.given + [Given(ip, p, HasDrained(s, ip))];
    if ReadsFreedFor(s.pending, ip, p) then s.(given := given, faulted := true)
    else
      var (q, i) := Queued(s.pending, ip, p);
      var threads := if StartsThread(s.pending, ip) then s.threads + [Thread(i, Starting, 0)] else s.threads;
      s.(pending := q, threads := threads, given := given)
  }

  ghost predicate ValidThread(s: State, t: nat) {
    t < |s.threads| && s.threads[t].entry < |s.pending|
  }

  function At(s: State, t: nat, phase: Phase, requests: int): seq<Thread>
    requires t < |s.threads|
  {
    s.threads[t := Thread(s.threads[t].entry, phase, requests)]
  }

  /** Sends the first request. */
  function Begin(s: State, t: nat): State
    requires t < |s.threads|
  {
    s.(threads := At(s, t, Looking(1), 1))
  }

  function Look(s: State, t: nat, hit: bool): State
    requires t < |s.threads| && s.threads[t].phase.Looking?
  {
    var th := s.threads[t];
    s.(threads := At(s, t, if hit then Found(th.phase.i) else Missed(th.phase.i), th.requests))
  }

  function SendBuffers(s: State, t: nat): State
    requires t < |s.threads| && s.threads[t].entry < |s.pending|
  {
    var i := s.threads[t].entry;
    var e := s.pending[i];
    s.(pending := s.pending[i := Drained(e)], threads := At(s, t, Sent(e.pacBuf != []), s.threads[t].requests),
       log := s.log + [SentData(e.ip, e.pacBuf), SentLsus(e.ip, e.lsuBuf)])
  }

  function SendRequest(s: State, t: nat): State
    requires t < |s.threads| && s.threads[t].entry < |s.pending| && s.threads[t].phase.Missed?
  {
    var i := s.threads[t].entry;
    var next := s.threads[t].phase.i + 1;
    s.(pending := s.pending[i := Retried(s.pending[i])],
       threads := At(s, t, if next < MAX_ARP_REQUESTS then Looking(next) else TimedOut, s.threads[t].requests + 1))
  }

  function End(s: State, t: nat): State
    requires t < |s.threads| && s.threads[t].entry < |s.pending|
  {
    var i := s.threads[t].entry;
    var e := s.pending[i];
    var events := if s.threads[t].phase == TimedOut then [Icmps(e.ip, e.pacBuf), DroppedLsus(e.ip, e.lsuBuf)]
                  else [LostData(e.ip, e.pacBuf), LostLsus(e.ip, e.lsuBuf)];
    s.(pending := s.pending[i := Emptied(e)], threads := At(s, t, Done, s.threads[t].requests), log := s.log + events)
  }

  ghost predicate ThreadStep(s: State, t: nat, s': State) {
    && ValidThread(s, t)
    && match s.threads[t].phase
       case Starting => s' == Begin(s, t)
       case Looking(_) => s' == Look(s, t, true) || s' == Look(s, t, false)
       case Found(_) => s' == SendBuffers(s, t)
       case Missed(_) => s' == SendRequest(s, t)
       case Sent(_) => s' == End(s, t)
       case TimedOut => s' == End(s, t)
       case Done => false
  }

  ghost predicate Next(s: State, s': State) {
    && !s.faulted
    && ((exists ip, p :: s' == HandOver(s, ip, p)) || (exists t: nat :: ThreadStep(s, t, s')))
  }

  // ---- thread discipline ----

  ghost predicate LiveFor(s: State, t: nat, e: nat) {
    t < |s.threads| && s.threads[t].entry == e && s.threads[t].phase != Done
  }

  /** A thread's own counters, and what it has left behind in its entry. */
  ghost predicate Counters(s: State, th: Thread) {
    th.entry < |s.pending| &&
    var e := s.pending[th.entry];
    match th.phase
    case Starting => th.requests == 0 && e.numRequests == 0 && Clean(e)
    case Looking(i) => 1 <= i < MAX_ARP_REQUESTS && th.requests == i && e.numRequests == i - 1 && Clean(e)
    case Found(i) => 1 <= i < MAX_ARP_REQUESTS && th.requests == i && e.numRequests == i - 1 && Clean(e)
    case Missed(i) => 1 <= i < MAX_ARP_REQUESTS && th.requests == i && e.numRequests == i - 1 && Clean(e)
    case Sent(data) => 1 <= th.requests < MAX_ARP_REQUESTS && e.numRequests == th.requests - 1 && e.pacFreed == data
    case TimedOut => th.requests == MAX_ARP_REQUESTS && e.numRequests == MAX_ARP_REQUESTS - 1 && Clean(e)
    case Done => 1 <= th.requests <= MAX_ARP_REQUESTS
  }

  predicate Idle(e: ArpEntry) {
    e.pacBuf == [] && e.lsuBuf == [] && Clean(e)
  }

  ghost predicate HasThread(s: State, e: nat) {
    exists t: nat :: LiveFor(s, t, e)
  }

  ghost predicate ThreadInv(s: State) {
    && (forall i, j | 0 <= i < j < |s.pending| :: s.pending[i].ip != s.pending[j].ip)
    && (forall t | 0 <= t < |s.threads| :: Counters(s, s.threads[t]))
    && (forall t: nat, u: nat, e: nat | t < u && LiveFor(s, t, e) :: !LiveFor(s, u, e))
    && (forall e: nat | e < |s.pending| && s.pending[e].numRequests >= 0 :: HasThread(s, e))
    && (forall e | 0 <= e < |s.pending| && s.pending[e].numRequests < 0 :: Idle(s.pending[e]))
  }

  /** A step of thread `t` touches that thread and its entry only. */
  ghost predicate Touches(s: State, t: nat, s': State) {
    && ValidThread(s, t) && |s'.threads| == |s.threads| && |s'.pending| == |s.pending|
    && s'.threads[t].entry == s.threads[t].entry
    && s'.pending[s.threads[t].entry].ip == s.pending[s.threads[t].entry].ip
    && (forall u | 0 <= u < |s.threads| && u != t :: s'.threads[u] == s.threads[u])
    && (forall e | 0 <= e < |s.pending| && e != s.threads[t].entry :: s'.pending[e] == s.pending[e])
  }

  lemma TouchKeepsThreadInv(s: State, t: nat, s': State)
    requires ThreadInv(s) && Touches(s, t, s') && LiveFor(s, t, s.threads[t].entry)
    requires Counters(s', s'.threads[t])
    requires var e := s'.pending[s.threads[t].entry];
             if s'.threads[t].phase == Done then e.numRequests < 0 && Idle(e)
             else e.numRequests >= 0
    ensures ThreadInv(s')
  {
    var e := s.threads[t].entry;
    forall u | 0 <= u < |s'.threads|
      ensures Counters(s', s'.threads[u])
    {
      assert Counters(s, s.threads[u]);
      if u != t && s.threads[u].entry == e {
        assert !LiveFor(s, u, e);
      }
    }
    forall u: nat, v: nat, x: nat | u < v && LiveFor(s', u, x)
      ensures !LiveFor(s', v, x)
    {
      assert LiveFor(s, u, x);
      assert LiveFor(s', v, x) ==> LiveFor(s, v, x);
    }
    forall x: nat | x < |s'.pending| && s'.pending[x].numRequests >= 0
      ensures HasThread(s', x)
    {
      if x == e {
        assert LiveFor(s', t, e);
      } else {
        assert HasThread(s, x);
        var u: nat :| LiveFor(s, u, x);
        assert LiveFor(s', u, x);
      }
    }
  }

  lemma StepCounts(s: State, t: nat, s': State)
    requires ThreadStep(s, t, s') && Counters(s, s.threads[t])
    ensures Touches(s, t, s') && LiveFor(s, t, s.threads[t].entry) && Counters(s', s'.threads[t])
    ensures var e := s'.pending[s.threads[t].entry];
            if s'.threads[t].phase == Done then e.numRequests < 0 && Idle(e) else e.numRequests >= 0
  {
  }

  lemma ThreadStepKeepsThreadInv(s: State, t: nat, s': State)
    requires ThreadInv(s) && ThreadStep(s, t, s')
    ensures ThreadInv(s') && Touches(s, t, s')
  {
    assert Counters(s, s.threads[t]);
    hide ThreadInv, ThreadStep;
    StepCounts(s, t, s');
    TouchKeepsThreadInv(s, t, s');
  }

  lemma NoThreadToStart(s: State, ip: Word)
    requires ThreadInv(s) && StartsThread(s.pending, ip)
    ensures forall t: nat :: !LiveFor(s, t, Queued(s.pending, ip, Packet(0, false)).1)
  {
    var i := Queued(s.pending, ip, Packet(0, false)).1;
    forall t: nat
      ensures !LiveFor(s, t, i)
    {
      assert t < |s.threads| ==> Counters(s, s.threads[t]);
    }
  }

  lemma QueuedEntries(pending: seq<ArpEntry>, ip: Word, p: Packet)
    ensures var (q, i) := Queued(pending, ip, p);
            && q[i].ip == ip && q[i].numRequests >= 0
            && q[i].pacFreed == (i < |pending| && pending[i].pacFreed)
            && q[i].lsuFreed == (i < |pending| && pending[i].lsuFreed)
            && i == Queued(pending, ip, Packet(0, false)).1
            && (StartsThread(pending, ip) ==> q[i].numRequests == 0)
            && (!StartsThread(pending, ip) ==> i < |pending| && q[i].numRequests == pending[i].numRequests)
            && (forall e | 0 <= e < |pending| && e != i :: q[e] == pending[e])
            && (i < |pending| ==> pending[i].ip == ip && |q| == |pending|)
            && (i >= |pending| ==> i == |pending| && |q| == |pending| + 1 && StartsThread(pending, ip)
                                   && forall e | 0 <= e < |pending| :: pending[e].ip != ip)
  {
  }

  /** The threads after a packet is handed over: at most one more, for an entry that had none. */
  lemma HandOverThreads(s: State, ip: Word, p: Packet)
    requires ThreadInv(s) && !ReadsFreedFor(s.pending, ip, p)
    ensures var s', i := HandOver(s, ip, p), Queued(s.pending, ip, p).1;
            && (forall t | 0 <= t < |s'.threads| :: Counters(s', s'.threads[t]))
            && (forall t: nat, e: nat :: LiveFor(s', t, e) <==>
                  LiveFor(s, t, e) || (StartsThread(s.pending, ip) && e == i && t == |s.threads|))
  {
    var s' := HandOver(s, ip, p);
    QueuedEntries(s.pending, ip, p);
    hide Queued, StartsThread;
    if StartsThread(s.pending, ip) {
      NoThreadToStart(s, ip);
    }
    forall t | 0 <= t < |s'.threads|
      ensures Counters(s', s'.threads[t])
    {
      if t < |s.threads| {
        assert Counters(s, s.threads[t]);
        assert s.threads[t].phase != Done ==> LiveFor(s, t, s.threads[t].entry);
      }
    }
  }

  lemma CleanHandOverKeepsThreadInv(s: State, ip: Word, p: Packet)
    requires ThreadInv(s) && !ReadsFreedFor(s.pending, ip, p)
    ensures ThreadInv(HandOver(s, ip, p))
  {
    var s' := HandOver(s, ip, p);
    QueuedEntries(s.pending, ip, p);
    HandOverThreads(s, ip, p);
    hide Queued, StartsThread, Counters, LiveFor, Idle, ReadsFreedFor;
    if StartsThread(s.pending, ip) {
      NoThreadToStart(s, ip);
    }
    forall e: nat | e < |s'.pending| && s'.pending[e].numRequests >= 0
      ensures HasThread(s', e)
    {
      if e == Queued(s.pending, ip, p).1 && StartsThread(s.pending, ip) {
        assert LiveFor(s', |s.threads|, e);
      } else {
        assert HasThread(s, e);
        var u: nat :| LiveFor(s, u, e);
        assert LiveFor(s', u, e);
      }
    }
  }

  lemma FaultKeepsThreadInv(s: State, s': State)
    requires ThreadInv(s) && s'.pending == s.pending && s'.threads == s.threads
    ensures ThreadInv(s')
  {
    assert forall th :: Counters(s', th) <==> Counters(s, th);
    assert forall t: nat, e: nat :: LiveFor(s', t, e) <==> LiveFor(s, t, e);
    forall e: nat | e < |s'.pending| && s'.pending[e].numRequests >= 0
      ensures HasThread(s', e)
    {
      assert HasThread(s, e);
      var u: nat :| LiveFor(s, u, e);
      assert LiveFor(s', u, e);
    }
  }

  lemma HandOverKeepsThreadInv(s: State, ip: Word, p: Packet)
    requires ThreadInv(s)
    ensures ThreadInv(HandOver(s, ip, p))
  {
    var s' := HandOver(s, ip, p);
    if ReadsFreedFor(s.pending, ip, p) {
      FaultKeepsThreadInv(s, s');
    } else {
      CleanHandOverKeepsThreadInv(s, ip, p);
    }
  }

  lemma NextKeepsThreadInv(s: State, s': State)
    requires ThreadInv(s) && Next(s, s')
    ensures ThreadInv(s')
  {
    hide ThreadInv, HandOver, ThreadStep;
    if ip, p :| s' == HandOver(s, ip, p) {
      HandOverKeepsThreadInv(s, ip, p);
    } else {
      var t: nat :| ThreadStep(s, t, s');
      ThreadStepKeepsThreadInv(s, t, s');
    }
  }

  // ---- whole runs ----

  ghost predicate Run(run: seq<State>) {
    && run != [] && run[0] == INIT
    && forall k | 0 <= k < |run| - 1 :: Next(run[k], run[k + 1])
  }

  lemma {:induction false} RunKeepsThreadInv(run: seq<State>, k: nat)
    requires Run(run) && k < |run|
    ensures ThreadInv(run[k])
  {
    if k > 0 {
      hide ThreadInv, Next;
      RunKeepsThreadInv(run, k - 1);
      NextKeepsThreadInv(run[k - 1], run[k]);
    }
  }

  /** There is at most one pending entry per address; an entry has a resolver thread live or about to
      start exactly while its request count is not -1, and never two; and a thread that has ended has
      sent between one and five requests. */
  lemma ThreadDiscipline(run: seq<State>, k: nat)
    requires Run(run) && k < |run|
    ensures var s := run[k];
            && (forall i, j | 0 <= i < j < |s.pending| :: s.pending[i].ip != s.pending[j].ip)
            && (forall e: nat | e < |s.pending| :: s.pending[e].numRequests >= 0 <==> HasThread(s, e))
            && (forall t: nat, u: nat, e: nat | LiveFor(s, t, e) && LiveFor(s, u, e) :: t == u)
            && (forall t | 0 <= t < |s.threads| :: 0 <= s.threads[t].requests <= 5)
            && (forall t | 0 <= t < |s.threads| && s.threads[t].phase == Done :: 1 <= s.threads[t].requests)
            && (forall t | 0 <= t < |s.threads| && s.threads[t].phase == TimedOut :: s.threads[t].requests == 5)
  {
    hide Next;
    RunKeepsThreadInv(run, k);
    var s := run[k];
    forall t: nat | t < |s.threads|
      ensures Counters(s, s.threads[t])
    {
    }
    forall e: nat | e < |s.pending| && HasThread(s, e)
      ensures s.pending[e].numRequests >= 0
    {
      var t: nat :| LiveFor(s, t, e);
      assert Counters(s, s.threads[t]);
    }
  }

  // ---- memory ----

  /** What a resolver thread is about to walk and free is live: no list is freed twice. */
  lemma NothingFreedTwice(run: seq<State>, k: nat, t: nat)
    requires Run(run) && k < |run| && ValidThread(run[k], t)
    requires run[k].threads[t].phase.Found? || run[k].threads[t].phase.TimedOut?
    ensures Clean(run[k].pending[run[k].threads[t].entry])
  {
    hide Next;
    RunKeepsThreadInv(run, k);
    assert Counters(run[k], run[k].threads[t]);
  }

  /** Thread `t` has sent data packets of the address, and the entry still points at them. */
  ghost predicate DataSentBy(s: State, t: nat, ip: Word) {
    DrainedBy(s, t, ip) && s.threads[t].phase.data
  }

  ghost predicate DataSent(s: State, ip: Word) {
    exists t: nat :: DataSentBy(s, t, ip)
  }

  lemma DataSentIsFreed(s: State, ip: Word, p: Packet, t: nat)
    requires ThreadInv(s) && !p.lsu && DataSentBy(s, t, ip)
    ensures ReadsFreedFor(s.pending, ip, p)
  {
    assert Counters(s, s.threads[t]);
    assert PlaceOf(s.pending, ip) == Some(s.threads[t].entry);
  }

  lemma FreedWasSent(s: State, ip: Word, p: Packet) returns (t: nat)
    requires ThreadInv(s) && ReadsFreedFor(s.pending, ip, p)
    ensures !p.lsu && DataSentBy(s, t, ip)
  {
    var e := PlaceOf(s.pending, ip).value;
    assert s.pending[e].numRequests < 0 ==> Idle(s.pending[e]);
    assert HasThread(s, e);
    t :| LiveFor(s, t, e);
    assert Counters(s, s.threads[t]);
  }

  /** Handing over a packet reads freed memory if and only if it is a data packet, and a resolver thread of its
      address has sent data packets and not yet run its last section. */
  lemma ReadsFreedExactly(run: seq<State>, k: nat, ip: Word, p: Packet)
    requires Run(run) && k < |run|
    ensures ReadsFreedFor(run[k].pending, ip, p) <==> !p.lsu && DataSent(run[k], ip)
  {
    hide Next, ThreadInv, ReadsFreedFor, DataSentBy;
    RunKeepsThreadInv(run, k);
    if ReadsFreedFor(run[k].pending, ip, p) {
      var t := FreedWasSent(run[k], ip, p);
    }
    forall t: nat | !p.lsu && DataSentBy(run[k], t, ip)
      ensures ReadsFreedFor(run[k].pending, ip, p)
    {
      DataSentIsFreed(run[k], ip, p, t);
    }
  }
}

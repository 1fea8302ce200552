/** The steps of the state machine are what the critical sections do to the records of pending addresses. */
module ArpSteps {
  import opened ArpProtocol
  import opened ArpQueue
  import opened PacketLists
  import opened Records

  /** The records in memory are those of the state. */
  ghost predicate Holds(q: Pending, s: State)
    reads q, q.pending, q.Seen()
  {
    q.Valid() && q.Values() == s.pending
  }

  /** get_mac_address takes the step of a hand-over: it goes wrong when the state machine stops, and starts the
      thread that the state machine starts. */
  method TakeHandOver(q: Pending, ghost s: State, ip: Word, p: Packet) returns (start: bool, place: nat, ok: bool)
    requires Holds(q, s) && !s.faulted
    modifies q, q.pending, (set e: ArpQueue.Entry, n: Node | e in q.pending && n in e.Nodes() :: n)`next
    ensures ok <==> !HandOver(s, ip, p).faulted
    ensures ok ==>
              var next := HandOver(s, ip, p);
              && Holds(q, next)
              && next.threads == if start then s.threads + [Thread(place, Starting, 0)] else s.threads
  {
    hide Queued, StartsThread, ReadsFreedFor, HasDrained;
    start, place, ok := q.GetMacAddress(ip, p);
  }

  /** The section after a successful lookup sends what the log says was sent. */
  method TakeSending(q: Pending, ghost s: State, ghost t: nat, i: nat)
    returns (sent: seq<Packet>, sentLsus: seq<Packet>)
    requires Holds(q, s) && ThreadInv(s) && ValidThread(s, t) && s.threads[t].entry == i && s.threads[t].phase.Found?
    modifies q.pending[i], q.pending[i].Nodes()`freed
    ensures var next, ip := SendBuffers(s, t), s.pending[i].ip;
            && ThreadStep(s, t, next) && Holds(q, next)
            && next.log == s.log + [SentData(ip, sent), SentLsus(ip, sentLsus)]
  {
    assert Counters(s, s.threads[t]);
    hide ThreadInv, Drained;
    sent, sentLsus := q.DrainAt(i);
  }

  /** The section after a failed lookup. */
  method TakeRetry(q: Pending, ghost s: State, ghost t: nat, i: nat)
    requires Holds(q, s) && ValidThread(s, t) && s.threads[t].entry == i && s.threads[t].phase.Missed?
    modifies q.pending[i]
    ensures ThreadStep(s, t, SendRequest(s, t)) && Holds(q, SendRequest(s, t))
  {
    q.RetryAt(i);
  }

  /** The last section: after five requests in vain it answers and drops what the log says. */
  method TakeEnd(q: Pending, ghost s: State, ghost t: nat, i: nat, timedOut: bool)
    returns (icmps: seq<Packet>, dropped: seq<Packet>)
    requires Holds(q, s) && ThreadInv(s) && ValidThread(s, t) && s.threads[t].entry == i
    requires s.threads[t].phase.Sent? || s.threads[t].phase.TimedOut?
    requires timedOut == s.threads[t].phase.TimedOut?
    modifies q.pending[i], q.pending[i].Nodes()`freed
    ensures var next, ip := End(s, t), s.pending[i].ip;
            && ThreadStep(s, t, next) && Holds(q, next)
            && (timedOut ==> next.log == s.log + [Icmps(ip, icmps), DroppedLsus(ip, dropped)])
  {
    assert Counters(s, s.threads[t]);
    hide ThreadInv, Emptied;
    icmps, dropped := q.FinishAt(i, timedOut);
  }
}

/** The list of addresses being resolved, each with the packets waiting for it: what each critical
    section of the ARP code does to it. */
module ArpQueue {
  import opened PacketLists
  import opened Records

  const MAX_ARP_REQUESTS: int := 5

  /** An entry as a value. `pacBuf` is first-in first-out; `lsuBuf` has the latest LSU in front. `pacFreed` tells
      that the data pointer is left over from a list that was freed, and `lsuFreed` that the LSU list goes on
      into one. */
  datatype ArpEntry = ArpEntry(ip: Word, numRequests: int, pacBuf: seq<Packet>, lsuBuf: seq<Packet>,
                               pacFreed: bool, lsuFreed: bool)

  predicate Clean(e: ArpEntry) {
    !e.pacFreed && !e.lsuFreed
  }

  function PlaceOf(pending: seq<ArpEntry>, ip: Word): (r: Option<nat>)
    ensures r.Some? ==> r.value < |pending| && pending[r.value].ip == ip
    ensures r.Some? ==> forall i | 0 <= i < r.value :: pending[i].ip != ip
    ensures r.None? ==> forall i | 0 <= i < |pending| :: pending[i].ip != ip
  {
    if pending == [] then None
    else if pending[0].ip == ip then Some(0)
    else match PlaceOf(pending[1..], ip)
      case None => None
      case Some(i) => Some(i + 1)
  }

  /** Queueing a packet in an entry reads freed memory: a data packet is appended by walking the list, an LSU
      is put in front without reading it. */
  predicate ReadsFreed(e: ArpEntry, p: Packet) {
    !p.lsu && e.pacFreed
  }

  predicate ReadsFreedFor(pending: seq<ArpEntry>, ip: Word, p: Packet) {
    match PlaceOf(pending, ip)
    case Some(i) => ReadsFreed(pending[i], p)
    case None => false
  }

  function Buffered(e: ArpEntry, p: Packet): ArpEntry {
    if p.lsu then e.(lsuBuf := [p] + e.lsuBuf) else e.(pacBuf := e.pacBuf + [p])
  }

  /** The entry after a packet is handed over: its request count starts anew when no thread worked on it. */
  function Handed(e: ArpEntry, p: Packet): ArpEntry {
    if e.numRequests >= 0 then Buffered(e, p) else Buffered(e, p).(numRequests := 0)
  }

  function NewEntry(ip: Word): ArpEntry {
    ArpEntry(ip, 0, [], [], false, false)
  }

  /** The list after a packet is handed over, and the place of its entry. */
  function Queued(pending: seq<ArpEntry>, ip: Word, p: Packet): (r: (seq<ArpEntry>, nat))
    ensures r.1 < |r.0| && |pending| <= |r.0|
  {
    match PlaceOf(pending, ip)
    case Some(i) => (pending[i := Handed(pending[i], p)], i)
    case None => (pending + [Handed(NewEntry(ip), p)], |pending|)
  }

  /** Whether handing over a packet starts a resolver thread. */
  predicate StartsThread(pending: seq<ArpEntry>, ip: Word) {
    match PlaceOf(pending, ip)
    case Some(i) => pending[i].numRequests < 0
    case None => true
  }

  /** The entry once everything in it was sent: the lists are freed, and both pointers stay. */
  function Drained(e: ArpEntry): ArpEntry {
    e.(pacBuf := [], lsuBuf := [], pacFreed := e.pacBuf != [], lsuFreed := e.lsuBuf != [])
  }

  function Retried(e: ArpEntry): ArpEntry {
    e.(numRequests := e.numRequests + 1)
  }

  function Emptied(e: ArpEntry): ArpEntry {
    ArpEntry(e.ip, -1, [], [], false, false)
  }

  /** The record kept for an address. */
  class Entry {
    const ip: Word
    var numRequests: int
    var pacBuf: Node?
    var lsuBuf: Node?
    ghost var data: seq<Node>  // the live nodes from pacBuf on
    ghost var lsus: seq<Node>  // the live nodes from lsuBuf on
    ghost var rest: Node?      // what the LSU list goes on with: nothing, or freed nodes

    constructor (ip: Word)
      ensures Valid() && Value() == NewEntry(ip) && Nodes() == {} && pacBuf == null && rest == null
    {
      this.ip := ip;
      this.numRequests := 0;
      this.pacBuf := null;
      this.lsuBuf := null;
      this.data := [];
      this.lsus := [];
      this.rest := null;
    }

    /** The live nodes. */
    ghost function Nodes(): set<Node>
      reads this
    {
      (set n | n in data) + (set n | n in lsus)
    }

    /** The live nodes and the freed ones still pointed at. */
    ghost function Seen(): set<Node>
      reads this
    {
      Nodes() + (if pacBuf == null then {} else {pacBuf}) + if rest == null then {} else {rest}
    }

    ghost predicate Valid()
      reads this, Seen()
    {
      && (Linked(pacBuf, data, null) || (data == [] && Dangling(pacBuf)))
      && Linked(lsuBuf, lsus, rest) && (rest != null ==> rest.freed)
      && (forall n | n in data :: n !in lsus)
    }

    ghost function Value(): ArpEntry
      reads this, Seen()
    {
      ArpEntry(ip, numRequests, Packets(data), Packets(lsus), Dangling(pacBuf), rest != null)
    }

    /** Appends to the data list. */
    method Append(p: Packet) returns (ok: bool)
      requires Linked(pacBuf, data, null) || (data == [] && Dangling(pacBuf))
      modifies `pacBuf, `data, (set n | n in data)`next
      ensures ok <==> !old(Dangling(pacBuf))
      ensures ok ==> Linked(pacBuf, data, null) && !Dangling(pacBuf) && Packets(data) == old(Packets(data)) + [p]
      ensures ok ==> |data| == |old(data)| + 1 && data[..|old(data)|] == old(data) && fresh(data[|old(data)|])
    {
      ghost var more;
      pacBuf, ok, more := AddToPackBuff(pacBuf, p, data);
      data := data + more;
    }

    /** Queues a data packet; not `ok` when that reads freed memory. */
    method BufferData(p: Packet) returns (ok: bool)
      requires Valid() && !p.lsu
      modifies `pacBuf, `data, Nodes()`next
      ensures ok <==> !old(Dangling(pacBuf))
      ensures ok ==> Valid() && Value() == Buffered(old(Value()), p) && fresh(Nodes() - old(Nodes()))
    {
      assert forall i | 0 <= i < |lsus| :: lsus[i] !in data;
      ok := Append(p);
      LsusKept();
      if ok {
        hide Linked, Dangling, Packets;
        assert forall i | 0 <= i < |old(data)| :: data[i] == old(data)[i];
      }
    }

    twostate lemma LsusKept()
      requires old(Linked(lsuBuf, lsus, rest)) && lsuBuf == old(lsuBuf) && lsus == old(lsus) && rest == old(rest)
      requires forall i | 0 <= i < |lsus| :: lsus[i].next == old(lsus[i].next) && lsus[i].freed == old(lsus[i].freed)
      ensures Linked(lsuBuf, lsus, rest)
    {
    }

    /** Puts an LSU in front. */
    method BufferLsu(p: Packet)
      requires Valid() && p.lsu
      modifies `lsuBuf, `lsus
      ensures Valid() && Value() == Buffered(old(Value()), p) && fresh(Nodes() - old(Nodes()))
    {
      var head := AddToLsuBuff(lsuBuf, p, lsus, rest);
      lsuBuf := head;
      lsus := [head] + lsus;
    }

    /** Queues a packet, and resets the request count when no thread works on the entry; not `ok` when that
        reads freed memory. */
    method HandOver(p: Packet) returns (start: bool, ok: bool)
      requires Valid()
      modifies this, Nodes()`next
      ensures ok <==> !ReadsFreed(old(Value()), p)
      ensures ok ==> Valid() && Value() == Handed(old(Value()), p) && fresh(Nodes() - old(Nodes()))
      ensures ok ==> start == (old(Value()).numRequests < 0)
    {
      start, ok := false, true;
      if p.lsu {
        BufferLsu(p);
      } else {
        ok := BufferData(p);
      }
      if ok && numRequests < 0 {
        numRequests := 0;
        start := true;
      }
    }

    /** The section that follows a successful lookup sends everything, data packets in the order they came,
        LSUs latest first. It leaves both pointers as they are. */
    method Drain() returns (sent: seq<Packet>, sentLsus: seq<Packet>)
      requires Valid() && Clean(Value())
      modifies `data, `lsus, `rest, Nodes()`freed
      ensures Valid() && Value() == Drained(old(Value())) && Nodes() == {}
      ensures sent == old(Value()).pacBuf && sentLsus == old(Value()).lsuBuf
      ensures rest == lsuBuf && pacBuf == old(pacBuf) && lsuBuf == old(lsuBuf)
    {
      sent := TakeAll(pacBuf, data);
      sentLsus := TakeAll(lsuBuf, lsus);
      data, lsus, rest := [], [], lsuBuf;
    }

    /** The section that follows a failed lookup: counts the request it sends. */
    method Retry()
      requires Valid()
      modifies `numRequests
      ensures Valid() && Value() == Retried(old(Value())) && Nodes() == old(Nodes())
    {
      numRequests := numRequests + 1;
    }

    /** The last section of a resolver thread. After five requests the data packets are answered with an
        ICMP each and the LSUs dropped; else whatever came in since the sending is forgotten. */
    method Finish(timedOut: bool) returns (icmps: seq<Packet>, dropped: seq<Packet>)
      requires Valid() && (timedOut ==> Clean(Value()))
      modifies this, Nodes()`freed
      ensures Valid() && Value() == Emptied(old(Value())) && Nodes() == {} && pacBuf == null && rest == null
      ensures icmps == (if timedOut then old(Value()).pacBuf else [])
      ensures dropped == (if timedOut then old(Value()).lsuBuf else [])
    {
      icmps, dropped := [], [];
      if timedOut {
        icmps := TakeAll(pacBuf, data);
        dropped := TakeAll(lsuBuf, lsus);
      }
      numRequests := -1;
      pacBuf := null;
      lsuBuf := null;
      data, lsus, rest := [], [], null;
    }
  }

  class Pending {
    var pending: seq<Entry>

    constructor ()
      ensures Valid() && Values() == []
    {
      pending := [];
    }

    ghost function Seen(): set<Node>
      reads this, pending
    {
      set e: Entry, n: Node | e in pending && n in e.Seen() :: n
    }

    /** The lists of different entries have no node in common. */
    ghost predicate Valid()
      reads this, pending, Seen()
    {
      && (forall e | e in pending :: e.Valid())
      && (forall i, j | 0 <= i < j < |pending| :: pending[i] != pending[j])
      && (forall i, j | 0 <= i < j < |pending| :: pending[i].Nodes() !! pending[j].Nodes())
    }

    ghost function Values(): seq<ArpEntry>
      reads this, pending, Seen()
    {
      seq(|pending|, i requires 0 <= i < |pending| reads this, pending, Seen() => pending[i].Value())
    }

    method GetEntry(ip: Word) returns (place: Option<nat>)
      ensures place == PlaceOf(Values(), ip)
    {
      for i := 0 to |pending|
        invariant forall k | 0 <= k < i :: pending[k].ip != ip
      {
        if pending[i].ip == ip {
          assert Values()[i].ip == ip;
          return Some(i);
        }
      }
      assert forall k | 0 <= k < |pending| :: Values()[k].ip == pending[k].ip;
      return None;
    }

    /** The live nodes of an entry are nothing that another points at. */
    lemma Apart(i: nat)
      requires Valid() && i < |pending|
      ensures pending[i].Valid() && pending[i].Value() == Values()[i]
      ensures forall j | 0 <= j < |pending| && j != i ::
                pending[i] != pending[j] && pending[i].Nodes() !! pending[j].Seen()
    {
      forall j, n | 0 <= j < |pending| && j != i && n in pending[i].Nodes()
        ensures n !in pending[j].Seen()
      {
        assert pending[i].Valid() && pending[j].Valid() && pending[i].Nodes() !! pending[j].Nodes();
        assert !n.freed;
      }
    }

    /** An entry is as it was when nothing it points at has changed. */
    twostate lemma EntryKept(e: Entry)
      requires old(e.Valid()) && unchanged(e) && forall n | n in old(e.Seen()) :: unchanged(n)
      ensures e.Valid() && e.Value() == old(e.Value()) && e.Nodes() == old(e.Nodes())
    {
      assert forall n | n in e.data || n in e.lsus :: n in old(e.Seen());
    }

    /** Only entry `i` has changed, and its new nodes are fresh. */
    twostate lemma OneEntryChanged(i: nat)
      requires old(Valid()) && pending == old(pending) && i < |pending|
      requires forall j | 0 <= j < |pending| && j != i :: unchanged(pending[j])
      requires forall j, n | 0 <= j < |pending| && j != i && n in old(pending[j].Seen()) :: unchanged(n)
      requires pending[i].Valid() && fresh(pending[i].Nodes() - old(pending[i].Nodes()))
      ensures Valid() && Values() == old(Values())[i := pending[i].Value()]
    {
      forall j | 0 <= j < |pending| && j != i
        ensures pending[j].Valid() && pending[j].Value() == old(pending[j].Value())
        ensures pending[j].Nodes() == old(pending[j].Nodes())
      {
        EntryKept(pending[j]);
      }
      OneEntryValid(i);
    }

    twostate lemma OneEntryValid(i: nat)
      requires old(Valid()) && pending == old(pending) && i < |pending|
      requires forall j | 0 <= j < |pending| && j != i ::
                 && pending[j].Valid() && pending[j].Value() == old(pending[j].Value())
                 && pending[j].Nodes() == old(pending[j].Nodes())
      requires pending[i].Valid() && fresh(pending[i].Nodes() - old(pending[i].Nodes()))
      ensures Valid() && Values() == old(Values())[i := pending[i].Value()]
    {
      hide Entry.Valid, Entry.Value;
      forall a, b | 0 <= a < b < |pending|
        ensures pending[a].Nodes() !! pending[b].Nodes()
      {
        assert old(pending[a].Nodes()) !! old(pending[b].Nodes());
      }
    }

    /** Hands a packet over to an entry. */
    method HandOverAt(i: nat, p: Packet) returns (start: bool, ok: bool)
      requires Valid() && i < |pending|
      modifies pending[i], pending[i].Nodes()`next
      ensures ok <==> !ReadsFreed(old(Values()[i]), p)
      ensures ok ==> Valid() && Values() == old(Values())[i := Handed(old(Values())[i], p)]
      ensures ok ==> start == (old(Values()[i]).numRequests < 0)
    {
      hide Valid, Values, Entry.Valid, Entry.Value, Linked, ReadsFreed, Handed;
      Apart(i);
      start, ok := pending[i].HandOver(p);
      if ok {
        OneEntryChanged(i);
      }
    }

    /** The sections of a resolver thread, on the entry it works on. */
    method DrainAt(i: nat) returns (sent: seq<Packet>, sentLsus: seq<Packet>)
      requires Valid() && i < |pending| && Clean(Values()[i])
      modifies pending[i], pending[i].Nodes()`freed
      ensures Valid() && Values() == old(Values())[i := Drained(old(Values())[i])]
      ensures sent == old(Values()[i]).pacBuf && sentLsus == old(Values()[i]).lsuBuf
    {
      hide Valid, Values, Entry.Valid, Entry.Value, Linked, Drained;
      Apart(i);
      sent, sentLsus := pending[i].Drain();
      OneEntryChanged(i);
    }

    method RetryAt(i: nat)
      requires Valid() && i < |pending|
      modifies pending[i]
      ensures Valid() && Values() == old(Values())[i := Retried(old(Values())[i])]
    {
      hide Valid, Values, Entry.Valid, Entry.Value, Linked, Retried;
      Apart(i);
      pending[i].Retry();
      OneEntryChanged(i);
    }

    method FinishAt(i: nat, timedOut: bool) returns (icmps: seq<Packet>, dropped: seq<Packet>)
      requires Valid() && i < |pending| && (timedOut ==> Clean(Values()[i]))
      modifies pending[i], pending[i].Nodes()`freed
      ensures Valid() && Values() == old(Values())[i := Emptied(old(Values())[i])]
      ensures icmps == (if timedOut then old(Values()[i]).pacBuf else [])
      ensures dropped == (if timedOut then old(Values()[i]).lsuBuf else [])
    {
      hide Valid, Values, Entry.Valid, Entry.Value, Linked, Emptied;
      Apart(i);
      icmps, dropped := pending[i].Finish(timedOut);
      OneEntryChanged(i);
    }

    /** create_entry. */
    method CreateEntry(ip: Word)
      requires Valid()
      modifies `pending
      ensures Valid() && |pending| == |old(pending)| + 1
      ensures fresh(pending[|old(pending)|]) && pending[|old(pending)|].Nodes() == {}
      ensures Values() == old(Values()) + [NewEntry(ip)]
    {
      var e := new Entry(ip);
      pending := pending + [e];
    }

    /** Hands a packet over to a new entry. */
    method HandOverToNew(ip: Word, p: Packet)
      requires Valid()
      modifies `pending
      ensures Valid() && Values() == old(Values()) + [Handed(NewEntry(ip), p)]
    {
      hide Valid, Entry.Valid, Entry.Value, Linked, Handed;
      ghost var place := |pending|;
      CreateEntry(ip);
      assert !ReadsFreed(NewEntry(ip), p);
      var start, ok := HandOverAt(|pending| - 1, p);
      assert Values()[..place] == old(Values());
    }

    /** get_mac_address: queues the packet in the entry of its address, made if there is none, and tells whether
        a resolver thread is started and for which entry. Not `ok` when that reads freed memory. */
    method GetMacAddress(ip: Word, p: Packet) returns (start: bool, place: nat, ok: bool)
      requires Valid()
      modifies this, pending, (set e: Entry, n: Node | e in pending && n in e.Nodes() :: n)`next
      ensures ok <==> !ReadsFreedFor(old(Values()), ip, p)
      ensures ok ==> Valid() && (Values(), place) == Queued(old(Values()), ip, p)
      ensures ok ==> start == StartsThread(old(Values()), ip)
    {
      var found := GetEntry(ip);
      assert Valid() && Values() == old(Values());
      hide Valid, Entry.Valid, Entry.Value, Linked, ReadsFreed, Handed, PlaceOf;
      match found
      case Some(i) =>
        place := i;
        start, ok := HandOverAt(i, p);
      case None =>
        place := |pending|;
        HandOverToNew(ip, p);
        start, ok := true, true;
    }
  }
}

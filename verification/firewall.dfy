/** The firewall: its rule table, and the flow table of connections opened from inside, with timed
    entries that are refreshed, expire, and are purged when the table is full. */
module Firewall {
  import opened Records

  const TTL_INCREMENT: int := 50
  const MAX_TTL_UPDATES: int := 80
  const MAX_FT_SIZE: int := 30

  /** What identifies a connection. */
  datatype Tuple = Tuple(ipS: Word, ipD: Word, protocol: int, portS: int, portD: int)

  datatype Flow = Flow(key: Tuple, expTime: int, ttlUpdates: nat)

  predicate Live(f: Flow, now: int) {
    f.expTime >= now && f.ttlUpdates <= MAX_TTL_UPDATES
  }

  /** A rule matches in every field that is not 0; its protocol is compared with the destination. */
  predicate RuleMatches(r: Tuple, k: Tuple) {
    && (r.ipS == k.ipS || r.ipS == 0) && (r.ipD == k.ipD || r.ipD == 0)
    && (r.protocol == k.ipD || r.protocol == 0)
    && (r.portS == k.portS || r.portS == 0) && (r.portD == k.portD || r.portD == 0)
  }

  /** Field `r` of a rule admits value `v`: it is left open, or the same. */
  predicate Admits(r: int, v: int) {
    r == 0 || r == v
  }

  /** What a rule lets in: every field it gives is that of the packet, except that a protocol is looked for in the
      destination address. */
  lemma RuleMeans(r: Tuple, k: Tuple)
    ensures RuleMatches(r, k) <==>
            && Admits(r.ipS, k.ipS) && Admits(r.ipD, k.ipD) && Admits(r.portS, k.portS) && Admits(r.portD, k.portD)
            && Admits(r.protocol, k.ipD)
  {
  }

  /** So a rule that gives a destination and a protocol, as numbers that differ, lets nothing in. */
  lemma ProtocolRuleIsDead(r: Tuple, k: Tuple)
    requires r.ipD != 0 && r.protocol != 0 && r.protocol != r.ipD
    ensures !RuleMatches(r, k)
  {
    RuleMeans(r, k);
    hide RuleMatches;
  }

  /** The first live entry for a connection. */
  function FirstLive(s: seq<Flow>, k: Tuple, now: int): (r: Option<nat>)
    ensures r.Some? ==> r.value < |s| && s[r.value].key == k && Live(s[r.value], now)
    ensures r.Some? ==> forall i | 0 <= i < r.value :: !(s[i].key == k && Live(s[i], now))
    ensures r.None? ==> forall i | 0 <= i < |s| :: !(s[i].key == k && Live(s[i], now))
  {
    if s == [] then None
    else if s[0].key == k && Live(s[0], now) then Some(0)
    else match FirstLive(s[1..], k, now)
      case None => None
      case Some(i) => Some(i + 1)
  }

  /** What the purge leaves: everything behind the last stale entry. */
  function BehindLastStale(s: seq<Flow>, now: int): seq<Flow> {
    if s == [] || !Live(s[|s| - 1], now) then []
    else BehindLastStale(s[..|s| - 1], now) + [s[|s| - 1]]
  }

  /** An entry given one more interval. */
  function Refreshed(f: Flow): Flow {
    Flow(f.key, f.expTime + TTL_INCREMENT, f.ttlUpdates + 1)
  }

  function Opened(k: Tuple, now: int): Flow {
    Flow(k, now + TTL_INCREMENT, 0)
  }

  /** The answer to a packet from inside, and the flow table after it. */
  function Told(s: seq<Flow>, k: Tuple, now: int): (bool, seq<Flow>) {
    match FirstLive(s, k, now)
    case Some(i) => (true, s[i := Refreshed(s[i])])
    case None =>
      if |s| < MAX_FT_SIZE then (true, s + [Opened(k, now)])
      else
        var rest := BehindLastStale(s, now);
        if |rest| < MAX_FT_SIZE then (true, rest + [Opened(k, now)]) else (false, rest)
  }

  /** A packet from inside that is let out leaves an entry for its connection that expires 50 seconds or
      more later; replies pass until then, unless this was its last refresh. */
  lemma ToldLeavesEntry(s: seq<Flow>, k: Tuple, now: int)
    requires Told(s, k, now).0
    ensures var t := Told(s, k, now).1;
            exists i :: 0 <= i < |t| && t[i].key == k && now + TTL_INCREMENT <= t[i].expTime
                        && (t[i].ttlUpdates <= MAX_TTL_UPDATES ==>
                              forall later | now <= later <= t[i].expTime :: FirstLive(t, k, later).Some?)
  {
    var t := Told(s, k, now).1;
    var i := match FirstLive(s, k, now) case Some(j) => j case None => |t| - 1;
    assert t[i].key == k && now + TTL_INCREMENT <= t[i].expTime;
    if t[i].ttlUpdates <= MAX_TTL_UPDATES {
      forall later | now <= later <= t[i].expTime
        ensures FirstLive(t, k, later).Some?
      {
        assert t[i].key == k && Live(t[i], later);
      }
    }
  }

  /** What a packet from inside does to the other entries: nothing, unless the table is full and it opens a connection;
      then a suffix of live ones is left, in order. */
  lemma ToldElsewhere(s: seq<Flow>, k: Tuple, now: int) returns (j: nat)
    ensures var t := Told(s, k, now).1;
            && (FirstLive(s, k, now).Some? ==>
                  && |t| == |s| && (forall i | 0 <= i < |s| && i != FirstLive(s, k, now).value :: t[i] == s[i]))
            && (FirstLive(s, k, now).None? && |s| < 30 ==> |t| == |s| + 1 && t[..|s|] == s)
            && (FirstLive(s, k, now).None? && 30 <= |s| ==>
                  && j <= |s| && (t == s[j..] || (t != [] && t[..|t| - 1] == s[j..]))
                  && (forall i | j <= i < |s| :: Live(s[i], now)) && (0 < j ==> !Live(s[j - 1], now)))
  {
    j := BehindLastStaleIsSuffix(s, now);
    hide BehindLastStale, FirstLive, Live;
  }

  /** Purging loses no live entry's answer that was not there before. */
  lemma NoneBehindEither(s: seq<Flow>, k: Tuple, now: int)
    requires FirstLive(s, k, now).None?
    ensures FirstLive(BehindLastStale(s, now), k, now).None?
  {
    var j := BehindLastStaleIsSuffix(s, now);
    assert forall i | 0 <= i < |s| - j :: s[j..][i] == s[j + i];
  }

  function LiveOnes(s: seq<Flow>, now: int): seq<Flow> {
    if s == [] then []
    else LiveOnes(s[..|s| - 1], now) + if Live(s[|s| - 1], now) then [s[|s| - 1]] else []
  }

  /** It is the longest suffix without a stale entry. */
  lemma {:induction false} BehindLastStaleIsSuffix(s: seq<Flow>, now: int) returns (k: nat)
    ensures k <= |s| && BehindLastStale(s, now) == s[k..]
    ensures (forall i | k <= i < |s| :: Live(s[i], now)) && (0 < k ==> !Live(s[k - 1], now))
  {
    if s == [] || !Live(s[|s| - 1], now) {
      k := |s|;
    } else {
      k := BehindLastStaleIsSuffix(s[..|s| - 1], now);
      assert s[..|s| - 1][k..] + [s[|s| - 1]] == s[k..];
    }
  }

  /** A packet from inside is refused if and only if its connection has no live entry and the table is full of live
      ones, which it then leaves as they are. */
  lemma RefusedExactly(s: seq<Flow>, k: Tuple, now: int)
    requires |s| <= MAX_FT_SIZE
    ensures !Told(s, k, now).0 <==>
            FirstLive(s, k, now).None? && |s| == MAX_FT_SIZE && forall i | 0 <= i < |s| :: Live(s[i], now)
    ensures !Told(s, k, now).0 ==> Told(s, k, now).1 == s
  {
    hide BehindLastStale, FirstLive, Live;
    var j := BehindLastStaleIsSuffix(s, now);
  }

  /** Only a suffix satisfies that. */
  lemma SuffixIsUnique(s: seq<Flow>, now: int, k: nat, j: nat)
    requires k <= |s| && (forall i | k <= i < |s| :: Live(s[i], now)) && (0 < k ==> !Live(s[k - 1], now))
    requires j <= |s| && (forall i | j <= i < |s| :: Live(s[i], now)) && (0 < j ==> !Live(s[j - 1], now))
    ensures k == j
  {
  }

  /** Dropping entries up to a stale one, until only live ones are left, is the purge. */
  lemma NoStaleLeft(s: seq<Flow>, now: int, k: nat)
    requires k <= |s| && forall i | 0 <= i < |s| - k :: Live(s[k..][i], now)
    requires 0 < k ==> exists j :: k - 1 <= j < |s| && !Live(s[j], now)
    ensures s[k..] == BehindLastStale(s, now)
  {
    hide Live, BehindLastStale;
    assert forall i | k <= i < |s| :: s[i] == s[k..][i - k];
    var j := BehindLastStaleIsSuffix(s, now);
    SuffixIsUnique(s, now, k, j);
  }

  /** The purge keeps all live entries if and only if none of them stands before a stale one. */
  lemma {:induction false} PurgeSparesLive(s: seq<Flow>, now: int)
    ensures BehindLastStale(s, now) == LiveOnes(s, now) <==>
            forall i, j | 0 <= i < j < |s| && Live(s[i], now) :: Live(s[j], now)
  {
    if s != [] {
      var n := |s| - 1;
      PurgeSparesLive(s[..n], now);
      var last := s[n];
      if Live(last, now) {
        assert BehindLastStale(s[..n], now) == LiveOnes(s[..n], now) <==>
               BehindLastStale(s, now) == LiveOnes(s, now) by {
          var a, b := BehindLastStale(s[..n], now), LiveOnes(s[..n], now);
          if a + [last] == b + [last] {
            assert a == (a + [last])[..|a|] == (b + [last])[..|b|] == b;
          }
        }
      } else {
        LiveOnesNone(s[..n], now);
      }
    }
  }

  lemma {:induction false} LiveOnesNone(s: seq<Flow>, now: int)
    ensures LiveOnes(s, now) == [] <==> forall i | 0 <= i < |s| :: !Live(s[i], now)
  {
    if s != [] {
      LiveOnesNone(s[..|s| - 1], now);
    }
  }

  class FlowTable {
    var rules: seq<Tuple>
    var flows: seq<Flow>
    var ftSize: int
    ghost var born: seq<int>  // when each entry was added
    ghost var clock: int      // the latest time seen

    constructor (rules: seq<Tuple>, now: int)
      ensures Valid() && flows == [] && clock == now && this.rules == rules
    {
      this.rules := rules;
      flows, ftSize, born, clock := [], 0, [], now;
    }

    /** What every operation keeps: the size is right and bounded, every expiry time tells when the entry
        was added and how often it was refreshed, and a connection has at most one live entry. */
    ghost predicate Valid()
      reads this
    {
      && ftSize == |flows| <= MAX_FT_SIZE && |born| == |flows|
      && (forall i | 0 <= i < |flows| ::
            && born[i] <= clock && flows[i].ttlUpdates <= MAX_TTL_UPDATES + 1
            && flows[i].expTime == born[i] + TTL_INCREMENT * (flows[i].ttlUpdates + 1))
      && (forall i, j | 0 <= i < j < |flows| && flows[i].key == flows[j].key :: !Live(flows[i], clock))
    }

    /** No entry is live more than 4050 seconds after it was added. */
    lemma LiveAtMost4050Seconds(i: nat, now: int)
      requires Valid() && i < |flows| && Live(flows[i], now)
      ensures now <= born[i] + 4050
    {
    }

    method FtContains(k: Tuple, now: int) returns (place: Option<nat>)
      ensures place == FirstLive(flows, k, now)
    {
      for walker := 0 to |flows|
        invariant forall i | 0 <= i < walker :: !(flows[i].key == k && Live(flows[i], now))
      {
        if flows[walker].key == k {
          if flows[walker].expTime >= now && flows[walker].ttlUpdates <= MAX_TTL_UPDATES {
            return Some(walker);
          }
        }
      }
      return None;
    }

    /** One more interval for the entry at a place. */
    method Refresh(i: nat, now: int)
      requires Valid() && clock <= now && i < |flows| && Live(flows[i], now)
      modifies `flows, `clock
      ensures Valid() && clock == now
      ensures flows == old(flows)[i := Refreshed(old(flows[i]))]
    {
      flows := flows[i := flows[i].(expTime := flows[i].expTime + TTL_INCREMENT)];
      flows := flows[i := flows[i].(ttlUpdates := flows[i].ttlUpdates + 1)];
      clock := now;
    }

    method AddConnect(k: Tuple, now: int)
      requires Valid() && clock <= now && |flows| < MAX_FT_SIZE && FirstLive(flows, k, now).None?
      modifies this
      ensures Valid() && clock == now && rules == old(rules)
      ensures flows == old(flows) + [Opened(k, now)] && born == old(born) + [now]
    {
      flows := flows + [Flow(k, now + TTL_INCREMENT, 0)];
      ftSize := ftSize + 1;
      born, clock := born + [now], now;
    }

    /** The loop of remove_stale_entries: the pointer to the previous entry never advances, so each stale
        entry found makes the walk drop the head of the list and start over. */
    method DropHeads(now: int) returns (ghost dropped: nat)
      requires ftSize == |flows| == |born|
      modifies `flows, `born, `ftSize
      ensures dropped <= |old(flows)| && flows == old(flows)[dropped..] && born == old(born)[dropped..]
              && ftSize == |flows|
      ensures flows == BehindLastStale(old(flows), now)
    {
      hide BehindLastStale;
      var walker := 0;
      dropped := 0;
      while walker < |flows|
        invariant 0 <= walker <= |flows| && ftSize == |flows|
        invariant dropped <= |old(flows)| && flows == old(flows)[dropped..] && born == old(born)[dropped..]
        invariant forall i | 0 <= i < walker :: Live(flows[i], now)
        invariant 0 < dropped ==> exists j :: dropped - 1 <= j < |old(flows)| && !Live(old(flows)[j], now)
        decreases |flows|, |flows| - walker
      {
        if flows[walker].ttlUpdates > MAX_TTL_UPDATES || flows[walker].expTime < now {
          assert !Live(old(flows)[dropped + walker], now);
          flows := flows[1..];
          born := born[1..];
          ftSize := ftSize - 1;
          dropped := dropped + 1;
          walker := 0;
        } else {
          walker := walker + 1;
        }
      }
      NoStaleLeft(old(flows), now, dropped);
    }

    /** remove_stale_entries. */
    method RemoveStaleEntries(now: int)
      requires Valid() && clock <= now
      modifies this
      ensures Valid() && clock == now && rules == old(rules)
      ensures flows == BehindLastStale(old(flows), now) && ftSize == |flows|
      ensures |flows| <= old(|flows|) && born == old(born)[old(|flows|) - |flows|..]
    {
      hide BehindLastStale;
      ghost var dropped := DropHeads(now);
      clock := now;
    }

    /** tell_valid: a packet from inside refreshes its connection or opens one, purging a full table. */
    method TellValid(k: Tuple, now: int) returns (ok: bool)
      requires Valid() && clock <= now
      modifies this
      ensures Valid() && clock == now && rules == old(rules)
      ensures (ok, flows) == Told(old(flows), k, now)
    {
      hide BehindLastStale, FirstLive, Valid;
      var place := FtContains(k, now);
      if place.Some? {
        Refresh(place.value, now);
        return true;
      }
      SizeIsRight();
      if ftSize < MAX_FT_SIZE {
        AddConnect(k, now);
        return true;
      }
      NoneBehindEither(flows, k, now);
      RemoveStaleEntries(now);
      if ftSize < MAX_FT_SIZE {
        AddConnect(k, now);
        return true;
      }
      return false;
    }

    lemma SizeIsRight()
      requires Valid()
      ensures ftSize == |flows| <= MAX_FT_SIZE
    {
    }

    /** Time passes. */
    ghost method Tick(now: int)
      requires Valid() && clock <= now
      modifies `clock
      ensures Valid() && clock == now
    {
      clock := now;
    }

    method RuleContains(k: Tuple) returns (found: bool)
      ensures found <==> exists i :: 0 <= i < |rules| && RuleMatches(rules[i], k)
    {
      for walker := 0 to |rules|
        invariant forall i | 0 <= i < walker :: !RuleMatches(rules[i], k)
      {
        if RuleMatches(rules[walker], k) {
          return true;
        }
      }
      return false;
    }

    /** check_connection: a packet from outside passes by a rule, or by a live connection, which it also
        refreshes. */
    method CheckConnection(k: Tuple, now: int) returns (ok: bool)
      requires Valid() && clock <= now
      modifies `flows, `clock
      ensures Valid() && clock == now
      ensures ok <==> (exists i :: 0 <= i < |rules| && RuleMatches(rules[i], k)) || old(FirstLive(flows, k, now)).Some?
      ensures flows == if (exists i :: 0 <= i < |rules| && RuleMatches(rules[i], k)) then old(flows)
                       else match old(FirstLive(flows, k, now))
                         case Some(i) => old(flows)[i := Refreshed(old(flows)[i])]
                         case None => old(flows)
    {
      hide FirstLive, RuleMatches, Valid, Refreshed;
      ok := RuleContains(k);
      Tick(now);
      if ok {
        return true;
      }
      var place := FtContains(k, now);
      if place.Some? {
        Refresh(place.value, now);
        return true;
      }
      return false;
    }
  }
}

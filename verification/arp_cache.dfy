/** The ARP cache: timed entries, purged whenever the cache is searched. */
module ArpCache {
  import opened Records

  const ARP_TIMEOUT: int := 15

  datatype CacheEntry = CacheEntry(ip: Word, mac: int, timeNotValid: int)

  /** The entries still valid, in order. */
  function Fresh(s: seq<CacheEntry>, now: int): seq<CacheEntry> {
    if s == [] then []
    else (if s[0].timeNotValid < now then [] else [s[0]]) + Fresh(s[1..], now)
  }

  function Lookup(s: seq<CacheEntry>, ip: Word): Option<int> {
    if s == [] then None else if s[0].ip == ip then Some(s[0].mac) else Lookup(s[1..], ip)
  }

  ghost predicate UniqueIps(s: seq<CacheEntry>) {
    forall i, j | 0 <= i < j < |s| :: s[i].ip != s[j].ip
  }

  lemma {:induction false} FreshMembers(s: seq<CacheEntry>, now: int)
    ensures forall e :: e in Fresh(s, now) <==> e in s && now <= e.timeNotValid
    ensures UniqueIps(s) ==> UniqueIps(Fresh(s, now))
  {
    if s != [] {
      FreshMembers(s[1..], now);
      assert forall e :: e in s <==> e == s[0] || e in s[1..];
      if UniqueIps(s) {
        assert forall e | e in s[1..] :: e.ip != s[0].ip;
      }
    }
  }

  lemma {:induction false} LookupFinds(s: seq<CacheEntry>, ip: Word)
    ensures Lookup(s, ip).None? <==> forall e | e in s :: e.ip != ip
    ensures Lookup(s, ip).Some? ==> exists e | e in s :: e.ip == ip && e.mac == Lookup(s, ip).value
    ensures UniqueIps(s) ==> forall e | e in s && e.ip == ip :: Lookup(s, ip) == Some(e.mac)
  {
    if s != [] {
      LookupFinds(s[1..], ip);
      assert forall e :: e in s <==> e == s[0] || e in s[1..];
    }
  }

  /** A search answers exactly from the entry for the address that has not expired. */
  lemma SearchIsTimely(s: seq<CacheEntry>, ip: Word, now: int, e: CacheEntry)
    requires UniqueIps(s) && e in s && e.ip == ip
    ensures Lookup(Fresh(s, now), ip) == if now <= e.timeNotValid then Some(e.mac) else None
  {
    FreshMembers(s, now);
    LookupFinds(Fresh(s, now), ip);
    if now > e.timeNotValid {
      forall x | x in Fresh(s, now)
        ensures x.ip != ip
      {
        assert x in s && x != e;
        var i :| 0 <= i < |s| && s[i] == x;
        var j :| 0 <= j < |s| && s[j] == e;
      }
    }
  }

  lemma {:induction false} FreshLater(s: seq<CacheEntry>, now: int, later: int)
    requires now <= later
    ensures Fresh(Fresh(s, now), later) == Fresh(s, later)
  {
    if s != [] {
      FreshLater(s[1..], now, later);
      var f := Fresh(s[1..], now);
      if s[0].timeNotValid < now {
        assert Fresh(s, now) == f;
      } else {
        assert Fresh(s, now) == [s[0]] + f && ([s[0]] + f)[1..] == f;
      }
    }
  }

  lemma {:induction false} FreshOneMore(s: seq<CacheEntry>, e: CacheEntry, now: int)
    ensures Fresh(s + [e], now) == Fresh(s, now) + if e.timeNotValid < now then [] else [e]
  {
    if s == [] {
      assert [] + [e] == [e] && [e][1..] == [];
    } else {
      FreshOneMore(s[1..], e, now);
      assert (s + [e])[1..] == s[1..] + [e];
    }
  }

  lemma {:induction false} LookupOneMore(s: seq<CacheEntry>, e: CacheEntry, ip: Word)
    ensures Lookup(s + [e], ip) ==
            if Lookup(s, ip).Some? then Lookup(s, ip) else if e.ip == ip then Some(e.mac) else None
  {
    if s == [] {
      assert [] + [e] == [e] && [e][1..] == [];
    } else {
      LookupOneMore(s[1..], e, ip);
      assert (s + [e])[1..] == s[1..] + [e];
    }
  }

  lemma StaysUnknown(s: seq<CacheEntry>, ip: Word, now: int, later: int)
    requires now <= later && Lookup(Fresh(s, now), ip).None?
    ensures Lookup(Fresh(s, later), ip).None?
  {
    FreshMembers(s, now);
    FreshMembers(s, later);
    LookupFinds(Fresh(s, now), ip);
    LookupFinds(Fresh(s, later), ip);
  }

  /** An address that was added is answered for 15 seconds, and the entries before it are answered as without it. */
  lemma AddedAnswers(s: seq<CacheEntry>, ip: Word, mac: int, now: int, later: int, other: Word)
    requires UniqueIps(s) && now <= later && Lookup(Fresh(s, now), ip).None?
    ensures var t := Fresh(s, now) + [CacheEntry(ip, mac, now + ARP_TIMEOUT)];
            && UniqueIps(t) && Lookup(Fresh(t, later), ip) == (if later <= now + 15 then Some(mac) else None)
            && (other != ip ==> Lookup(Fresh(t, later), other) == Lookup(Fresh(s, later), other))
  {
    var f, e := Fresh(s, now), CacheEntry(ip, mac, now + ARP_TIMEOUT);
    FreshMembers(s, now);
    LookupFinds(f, ip);
    FreshOneMore(f, e, later);
    FreshLater(s, now, later);
    StaysUnknown(s, ip, now, later);
    LookupOneMore(Fresh(s, later), e, ip);
    LookupOneMore(Fresh(s, later), e, other);
    assert Fresh(s, later) + [] == Fresh(s, later);
  }

  /** The valid entries from place `i` on. */
  lemma FreshFrom(s: seq<CacheEntry>, i: nat, now: int)
    requires i <= |s|
    ensures Fresh(s[i..], now) == if i == |s| then []
              else (if s[i].timeNotValid < now then [] else [s[i]]) + Fresh(s[i + 1..], now)
  {
    assert i < |s| ==> s[i..][1..] == s[i + 1..];
  }

  class Cache {
    var entries: seq<CacheEntry>

    ghost predicate Valid()
      reads this
    {
      UniqueIps(entries)
    }

    constructor ()
      ensures Valid() && entries == []
    {
      entries := [];
    }

    /** Deletes expired entries in place: first, in the middle, or last. */
    method CheckCacheInvalid(now: int)
      modifies this
      ensures entries == Fresh(old(entries), now)
    {
      hide Fresh;
      var walker := 0;
      assert entries[0..] == entries;
      while walker < |entries|
        invariant 0 <= walker <= |entries|
        invariant entries[..walker] + Fresh(entries[walker..], now) == Fresh(old(entries), now)
        decreases |entries| - walker
      {
        FreshFrom(entries, walker, now);
        ghost var kept, rest := entries[..walker], entries[walker + 1..];
        if entries[walker].timeNotValid < now {
          if walker == 0 {
            entries := entries[1..];
          } else if walker == |entries| - 1 {
            entries := entries[..walker];
          } else {
            entries := entries[..walker] + entries[walker + 1..];
          }
          assert entries[..walker] == kept && entries[walker..] == rest;
        } else {
          assert entries[..walker + 1] == kept + [entries[walker]];
          walker := walker + 1;
        }
      }
      FreshFrom(entries, walker, now);
      assert entries[..walker] == entries;
    }

    method SearchCache(ip: Word, now: int) returns (mac: Option<int>)
      requires Valid()
      modifies this
      ensures Valid() && entries == Fresh(old(entries), now) && mac == Lookup(entries, ip)
    {
      FreshMembers(entries, now);
      CheckCacheInvalid(now);
      var walker := 0;
      while walker < |entries|
        invariant 0 <= walker <= |entries| && Lookup(entries[walker..], ip) == Lookup(entries, ip)
      {
        if ip == entries[walker].ip {
          return Some(entries[walker].mac);
        }
        walker := walker + 1;
      }
      return None;
    }

    /** Adds an address for 15 seconds unless it is in the cache already; then the old entry stays as it is. */
    method AddCacheEntry(ip: Word, mac: int, now: int)
      requires Valid() && ip != 0
      modifies this
      ensures Valid()
      ensures entries == Fresh(old(entries), now)
                         + (if Lookup(Fresh(old(entries), now), ip).None?
                             then [CacheEntry(ip, mac, now + ARP_TIMEOUT)] else [])
    {
      var found := SearchCache(ip, now);
      LookupFinds(entries, ip);
      if found.None? {
        entries := entries + [CacheEntry(ip, mac, now + ARP_TIMEOUT)];
      }
    }
  }
}

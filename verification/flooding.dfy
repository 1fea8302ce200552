/** LSU flooding: what one router does with an LSU, and what the routers of a network achieve
    together by receiving, discarding duplicates and forwarding. */
module Flooding {
  import opened Records

  const INIT_TTL: int := 255

  /** An LSU packet on the wire: originator, sequence number, LSU and IP time to live, the addresses of
      the hop it crosses, and its advertisements. */
  datatype Lsu = Lsu(rid: Word, seq_: bv16, ttl: int, ipTtl: int, src: Word, dst: Word, advs: seq<Route>)

  /** Decrement of an 8-bit counter. */
  function Dec8(x: int): (r: int)
    ensures 0 <= r < 256
  {
    (x + 255) % 256
  }

  /** Copies for the neighbours of one interface, except the one the packet came from. */
  function CopiesOn(f: Iface, ns: seq<Neighbor>, p: Lsu, from: Option<Word>): seq<Lsu> {
    if ns == [] then []
    else (if from == Some(ns[0].ip) then [] else [p.(src := f.address, dst := ns[0].ip)])
         + CopiesOn(f, ns[1..], p, from)
  }

  function Copies(ifs: seq<Iface>, p: Lsu, from: Option<Word>): seq<Lsu> {
    if ifs == [] then []
    else CopiesOn(ifs[0], ifs[0].neighbors, p, from) + Copies(ifs[1..], p, from)
  }

  /** The copies from interface `i` on. */
  lemma CopiesFrom(ifs: seq<Iface>, p: Lsu, from: Option<Word>, i: nat)
    requires i <= |ifs|
    ensures Copies(ifs[i..], p, from) == if i == |ifs| then []
              else CopiesOn(ifs[i], ifs[i].neighbors, p, from) + Copies(ifs[i + 1..], p, from)
  {
    assert i < |ifs| ==> ifs[i..][1..] == ifs[i + 1..];
  }

  /** The copies from neighbour `j` on. */
  lemma CopiesOnFrom(f: Iface, p: Lsu, from: Option<Word>, j: nat)
    requires j <= |f.neighbors|
    ensures CopiesOn(f, f.neighbors[j..], p, from) == if j == |f.neighbors| then []
              else (if from == Some(f.neighbors[j].ip) then [] else [p.(src := f.address, dst := f.neighbors[j].ip)])
                   + CopiesOn(f, f.neighbors[j + 1..], p, from)
  {
    assert j < |f.neighbors| ==> f.neighbors[j..][1..] == f.neighbors[j + 1..];
  }

  /** What forward_lsu sends for a packet: nothing once a time to live has run out. */
  function Forwarded(ifs: seq<Iface>, p: Lsu): seq<Lsu> {
    if 0 < Dec8(p.ttl) && 0 < Dec8(p.ipTtl)
    then Copies(ifs, p.(ttl := Dec8(p.ttl), ipTtl := Dec8(p.ipTtl)), Some(p.src))
    else []
  }

  /** What send_lsu sends. */
  function Originated(ifs: seq<Iface>, rid: Word, seq_: bv16, advs: seq<Route>): seq<Lsu> {
    Copies(ifs, Lsu(rid, seq_, INIT_TTL, INIT_TTL, 0, 0, advs), None)
  }

  /** Router `v` is behind one of the neighbours listed. */
  ghost predicate Lists(owner: map<Word, Word>, ifs: seq<Iface>, v: Word) {
    exists i, j :: 0 <= i < |ifs| && 0 <= j < |ifs[i].neighbors|
                   && ifs[i].neighbors[j].ip in owner && owner[ifs[i].neighbors[j].ip] == v
  }

  lemma {:induction false} CopiesOnContents(f: Iface, ns: seq<Neighbor>, p: Lsu, from: Option<Word>)
    ensures |CopiesOn(f, ns, p, from)| <= |ns|
    ensures forall c | c in CopiesOn(f, ns, p, from) ::
              exists j :: 0 <= j < |ns| && from != Some(ns[j].ip) && c == p.(src := f.address, dst := ns[j].ip)
    ensures forall j | 0 <= j < |ns| && from != Some(ns[j].ip) ::
              p.(src := f.address, dst := ns[j].ip) in CopiesOn(f, ns, p, from)
  {
    if ns != [] {
      CopiesOnContents(f, ns[1..], p, from);
      forall c | c in CopiesOn(f, ns, p, from)
        ensures exists j :: 0 <= j < |ns| && from != Some(ns[j].ip) && c == p.(src := f.address, dst := ns[j].ip)
      {
        if c in CopiesOn(f, ns[1..], p, from) {
          var j :| 0 <= j < |ns[1..]| && from != Some(ns[1..][j].ip) && c == p.(src := f.address, dst := ns[1..][j].ip);
          assert ns[j + 1] == ns[1..][j];
        }
      }
      forall j | 0 <= j < |ns| && from != Some(ns[j].ip)
        ensures p.(src := f.address, dst := ns[j].ip) in CopiesOn(f, ns, p, from)
      {
        if j > 0 {
          assert ns[1..][j - 1] == ns[j];
        }
      }
    }
  }

  /** A copy for neighbour `j` of interface `i`. */
  function CopyFor(ifs: seq<Iface>, p: Lsu, i: nat, j: nat): Lsu
    requires i < |ifs| && j < |ifs[i].neighbors|
  {
    p.(src := ifs[i].address, dst := ifs[i].neighbors[j].ip)
  }

  ghost predicate IsCopy(ifs: seq<Iface>, p: Lsu, from: Option<Word>, c: Lsu, i: nat, j: nat) {
    && i < |ifs| && j < |ifs[i].neighbors| && from != Some(ifs[i].neighbors[j].ip)
    && c == CopyFor(ifs, p, i, j)
  }

  /** The number of neighbours over all interfaces. */
  function Degree(ifs: seq<Iface>): nat {
    if ifs == [] then 0 else |ifs[0].neighbors| + Degree(ifs[1..])
  }

  /** The copies are exactly one per neighbour, less the one the packet came from. */
  lemma {:induction false} CopiesContents(ifs: seq<Iface>, p: Lsu, from: Option<Word>)
    ensures |Copies(ifs, p, from)| <= Degree(ifs)
    ensures forall c | c in Copies(ifs, p, from) :: exists i: nat, j: nat :: IsCopy(ifs, p, from, c, i, j)
    ensures forall i: nat, j: nat, c | IsCopy(ifs, p, from, c, i, j) :: c in Copies(ifs, p, from)
  {
    if ifs != [] {
      CopiesOnContents(ifs[0], ifs[0].neighbors, p, from);
      CopiesContents(ifs[1..], p, from);
      forall c | c in Copies(ifs, p, from)
        ensures exists i: nat, j: nat :: IsCopy(ifs, p, from, c, i, j)
      {
        if c in CopiesOn(ifs[0], ifs[0].neighbors, p, from) {
          var j: nat :| j < |ifs[0].neighbors| && from != Some(ifs[0].neighbors[j].ip)
                        && c == p.(src := ifs[0].address, dst := ifs[0].neighbors[j].ip);
          assert IsCopy(ifs, p, from, c, 0, j);
        } else {
          var i: nat, j: nat :| IsCopy(ifs[1..], p, from, c, i, j);
          assert IsCopy(ifs, p, from, c, i + 1, j);
        }
      }
      forall i: nat, j: nat, c | IsCopy(ifs, p, from, c, i, j)
        ensures c in Copies(ifs, p, from)
      {
        if i > 0 {
          assert IsCopy(ifs[1..], p, from, c, i - 1, j);
        }
      }
    }
  }

  /** Every copy carries what the packet carries. */
  lemma CopiesCarry(ifs: seq<Iface>, p: Lsu, from: Option<Word>)
    ensures forall c | c in Copies(ifs, p, from) :: c.rid == p.rid && c.seq_ == p.seq_ && c.advs == p.advs
  {
    CopiesContents(ifs, p, from);
    forall c | c in Copies(ifs, p, from)
      ensures c.rid == p.rid && c.seq_ == p.seq_ && c.advs == p.advs
    {
      var i: nat, j: nat :| IsCopy(ifs, p, from, c, i, j);
    }
  }

  /** Copy `c` is packet `p` on its way from interface `i` to its neighbour `j`, with other times to live. Originator,
      number and advertisements are those of the packet. */
  ghost predicate CarriedTo(ifs: seq<Iface>, p: Lsu, c: Lsu, i: nat, j: nat) {
    && i < |ifs| && j < |ifs[i].neighbors|
    && c.rid == p.rid && c.seq_ == p.seq_ && c.advs == p.advs
    && c.src == ifs[i].address && c.dst == ifs[i].neighbors[j].ip
  }

  ghost predicate SomeCarriedTo(ifs: seq<Iface>, p: Lsu, cs: seq<Lsu>, i: nat, j: nat) {
    exists c :: c in cs && CarriedTo(ifs, p, c, i, j)
  }

  /** Neighbour `j` of interface `i` is at another address than `a`. */
  ghost predicate OtherNeighbor(ifs: seq<Iface>, i: nat, j: nat, a: Word) {
    i < |ifs| && j < |ifs[i].neighbors| && ifs[i].neighbors[j].ip != a
  }

  /** One less in 8 bits. */
  function OneLess(x: int): int {
    if x == 0 then 255 else x - 1
  }

  /** A packet is sent on, with everything it carries and one less to live, to exactly the neighbours at other addresses
      than the one it came from; and to nobody when that leaves nothing to live. */
  lemma ForwardedCarry(ifs: seq<Iface>, p: Lsu)
    requires 0 <= p.ttl < 256 && 0 <= p.ipTtl < 256
    ensures p.ttl == 1 || p.ipTtl == 1 ==> Forwarded(ifs, p) == []
    ensures forall c | c in Forwarded(ifs, p) ::
              && c.dst != p.src && c.ttl == OneLess(p.ttl) && c.ipTtl == OneLess(p.ipTtl)
              && exists i: nat, j: nat :: CarriedTo(ifs, p, c, i, j)
    ensures p.ttl != 1 && p.ipTtl != 1 ==>
              forall i: nat, j: nat | OtherNeighbor(ifs, i, j, p.src) :: SomeCarriedTo(ifs, p, Forwarded(ifs, p), i, j)
  {
    var q := p.(ttl := Dec8(p.ttl), ipTtl := Dec8(p.ipTtl));
    CopiesContents(ifs, q, Some(p.src));
    hide Copies;
    forall c | c in Forwarded(ifs, p)
      ensures c.dst != p.src && c.ttl == OneLess(p.ttl) && c.ipTtl == OneLess(p.ipTtl)
      ensures exists i: nat, j: nat :: CarriedTo(ifs, p, c, i, j)
    {
      var i: nat, j: nat :| IsCopy(ifs, q, Some(p.src), c, i, j);
      assert CarriedTo(ifs, p, c, i, j);
    }
    if p.ttl != 1 && p.ipTtl != 1 {
      forall i: nat, j: nat | OtherNeighbor(ifs, i, j, p.src)
        ensures SomeCarriedTo(ifs, p, Forwarded(ifs, p), i, j)
      {
        var c := CopyFor(ifs, q, i, j);
        assert IsCopy(ifs, q, Some(p.src), c, i, j);
        assert c in Forwarded(ifs, p) && CarriedTo(ifs, p, c, i, j);
      }
    }
  }

  /** A new LSU goes to every neighbour, with 255 to live and the advertisements. */
  lemma OriginatedCarry(ifs: seq<Iface>, rid: Word, seq_: bv16, advs: seq<Route>)
    ensures var p := Lsu(rid, seq_, 255, 255, 0, 0, advs);
            var cs := Originated(ifs, rid, seq_, advs);
            && (forall c | c in cs :: c.ttl == c.ipTtl == 255 && exists i: nat, j: nat :: CarriedTo(ifs, p, c, i, j))
            && forall i: nat, j: nat | i < |ifs| && j < |ifs[i].neighbors| :: SomeCarriedTo(ifs, p, cs, i, j)
  {
    var p := Lsu(rid, seq_, 255, 255, 0, 0, advs);
    var cs := Originated(ifs, rid, seq_, advs);
    CopiesContents(ifs, p, None);
    hide Copies;
    forall c | c in cs
      ensures c.ttl == c.ipTtl == 255 && exists i: nat, j: nat :: CarriedTo(ifs, p, c, i, j)
    {
      var i: nat, j: nat :| IsCopy(ifs, p, None, c, i, j);
      assert CarriedTo(ifs, p, c, i, j);
    }
    forall i: nat, j: nat | i < |ifs| && j < |ifs[i].neighbors|
      ensures SomeCarriedTo(ifs, p, cs, i, j)
    {
      var c := CopyFor(ifs, p, i, j);
      assert IsCopy(ifs, p, None, c, i, j);
      assert CarriedTo(ifs, p, c, i, j);
    }
  }
}

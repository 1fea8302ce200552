/** The subnets and the table that pwospf_init sets up, one of each per interface: what they are, and exactly when the
    table is right for a router that knows nobody yet. */
module Startup {
  import opened Database
  import opened Forwarding
  import opened Graphs
  import opened Lookup
  import opened Octets
  import opened Records
  import Topology

  ghost function Subnets(ifs: seq<Iface>, littleEndian: bool): (r: seq<Route>)
    ensures |r| == |ifs|
  {
    seq(|ifs|, i requires 0 <= i < |ifs| => Topology.InitialRoute(ifs[i], littleEndian))
  }

  ghost function Table(ifs: seq<Iface>, littleEndian: bool): (r: seq<Entry>)
    ensures |r| == |ifs|
  {
    seq(|ifs|, i requires 0 <= i < |ifs| => Topology.InitialEntry(ifs[i], littleEndian))
  }

  lemma {:induction false} AndCommutes(a: nat, b: nat)
    ensures And(a, b) == And(b, a)
    decreases a + b
  {
    if a != 0 && b != 0 {
      AndCommutes(a / 2, b / 2);
    } else if a != 0 {
      AndCommutes(a / 2, 0);
    } else if b != 0 {
      AndCommutes(0, b / 2);
    }
  }

  /** The octet of an address that lies last, as a number and in the machine word. */
  lemma LastOctet(littleEndian: bool, q: Quad)
    ensures Load(littleEndian, q) / 0x100_0000 == (if littleEndian then q.b3 else q.b0)
    ensures Load(littleEndian, q) % 2 == (if littleEndian then q.b0 else q.b3) % 2
  {
  }

  lemma OneMore(littleEndian: bool, q: Quad)
    requires q.b3 % 2 == 0
    ensures var r := Quad(q.b0, q.b1, q.b2, q.b3 + 1);
            Load(littleEndian, r) == Load(littleEndian, q) + if littleEndian then 0x100_0000 else 1
  {
  }

  /** The next hop set up for an interface whose address is its own prefix is the address with the last bit set, in
      network order. */
  lemma HostBitIsLast(a: Word, littleEndian: bool)
    ensures var b := Topology.WithHostBit(a, littleEndian);
            && Spelled(littleEndian, b) / 2 == Spelled(littleEndian, a) / 2 && Spelled(littleEndian, b) % 2 == 1
  {
    var q := Store(littleEndian, a);
    LoadUndoesStore(littleEndian, a);
    LastOctet(littleEndian, q);
    LastOctet(false, q);
    hide Store, Load;
    if q.b3 % 2 == 0 {
      var r := Quad(q.b0, q.b1, q.b2, q.b3 + 1);
      OneMore(littleEndian, q);
      OneMore(false, q);
      StoreUndoesLoad(littleEndian, r);
    }
  }

  /** The subnet of an interface: its prefix and mask, nobody behind it yet, and as next hop the prefix, unless that is
      the interface's own address. */
  lemma SubnetIs(f: Iface, littleEndian: bool)
    ensures var r := Topology.InitialRoute(f, littleEndian);
            && r.prefix == And(f.mask, f.address) && r.mask == f.mask && r.rid == 0
            && r.nextHop == if r.prefix != f.address then r.prefix else Topology.WithHostBit(f.address, littleEndian)
  {
    AndCommutes(f.address, f.mask);
    hide And;
  }

  /** The entry of an interface is for its subnet, at no distance, and names the interface. */
  lemma EntryIs(f: Iface, littleEndian: bool)
    ensures var (r, e) := (Topology.InitialRoute(f, littleEndian), Topology.InitialEntry(f, littleEndian));
            HasKey(e, r) && e.nextHop == r.nextHop && e.iface == f.name && e.numHops == 0
  {
    hide And;
  }

  // ---- the table ----

  ghost predicate OwnPrefixes(ifs: seq<Iface>) {
    forall i, j | 0 <= i < j < |ifs| :: And(ifs[i].mask, ifs[i].address) != And(ifs[j].mask, ifs[j].address)
  }

  ghost predicate OwnNames(ifs: seq<Iface>) {
    forall i, j | 0 <= i < j < |ifs| :: ifs[i].name != ifs[j].name
  }

  /** The topology of a router that knows nobody. */
  ghost function Alone(me: Word): Graph<Word> {
    map[me := {}]
  }

  ghost predicate StartsRight(me: Word, ifs: seq<Iface>, littleEndian: bool) {
    TableCorrect<Word>(Alone(me), me, map[me := Subnets(ifs, littleEndian)], ifs, Self, Table(ifs, littleEndian))
  }

  lemma EntryGenuine(me: Word, ifs: seq<Iface>, littleEndian: bool, i: nat)
    requires OwnPrefixes(ifs) && i < |ifs|
    ensures Genuine<Word>(Alone(me), me, map[me := Subnets(ifs, littleEndian)], ifs, Self, Table(ifs, littleEndian)[i])
    ensures NoFarther<Word>(Alone(me), me, Table(ifs, littleEndian)[i], me)
  {
    var s := Subnets(ifs, littleEndian)[i];
    assert s in Subnets(ifs, littleEndian);
    SubnetIs(ifs[i], littleEndian);
    EntryIs(ifs[i], littleEndian);
    hide And, Topology.InitialRoute, Topology.InitialEntry;
    var a := SubnetIfaceFirst(ifs, s.prefix);
    LocalOffer<Word>(Alone(me), me, map[me := Subnets(ifs, littleEndian)], ifs, Self, s);
  }

  /** Interfaces with names of their own: the table set up at start is right if and only if no two of them have the same
      prefix. */
  lemma StartTableRight(me: Word, ifs: seq<Iface>, littleEndian: bool)
    requires OwnNames(ifs)
    ensures StartsRight(me, ifs, littleEndian) <==> OwnPrefixes(ifs)
  {
    if OwnPrefixes(ifs) {
      DistinctPrefixesRight(me, ifs, littleEndian);
    } else {
      var i, j :| 0 <= i < j < |ifs| && And(ifs[i].mask, ifs[i].address) == And(ifs[j].mask, ifs[j].address);
      SamePrefixWrong(me, ifs, littleEndian, i, j);
    }
  }

  lemma DistinctPrefixesRight(me: Word, ifs: seq<Iface>, littleEndian: bool)
    requires OwnPrefixes(ifs)
    ensures StartsRight(me, ifs, littleEndian)
  {
    var t, s := Table(ifs, littleEndian), Subnets(ifs, littleEndian);
    forall i | 0 <= i < |ifs|
      ensures t[i].prefix == s[i].prefix == And(ifs[i].mask, ifs[i].address) && t[i].mask == s[i].mask
      ensures Genuine<Word>(Alone(me), me, map[me := s], ifs, Self, t[i]) && NoFarther<Word>(Alone(me), me, t[i], me)
    {
      SubnetIs(ifs[i], littleEndian);
      EntryIs(ifs[i], littleEndian);
      EntryGenuine(me, ifs, littleEndian, i);
    }
    hide And, Topology.InitialRoute, Topology.InitialEntry, Genuine, NoFarther, Subnets, Table;
    forall r | r in s
      ensures Covered<Word>(Alone(me), me, t, me, r)
    {
      var i :| 0 <= i < |s| && s[i] == r;
      assert t[i] in t && HasKey(t[i], r);
    }
  }

  lemma SamePrefixWrong(me: Word, ifs: seq<Iface>, littleEndian: bool, i: nat, j: nat)
    requires OwnNames(ifs) && i < j < |ifs| && And(ifs[i].mask, ifs[i].address) == And(ifs[j].mask, ifs[j].address)
    ensures !StartsRight(me, ifs, littleEndian)
  {
    hide And, Topology.InitialRoute, Topology.InitialEntry, TableCorrect, IsDistance;
    var t, e := Table(ifs, littleEndian), Table(ifs, littleEndian)[j];
    assert e in t;
    SubnetIs(ifs[j], littleEndian);
    EntryIs(ifs[j], littleEndian);
    if StartsRight(me, ifs, littleEndian) {
      EntriesLeave<Word>(Alone(me), me, map[me := Subnets(ifs, littleEndian)], ifs, Self, t, e);
      NotOnFirst(ifs, e, i, j);
    }
  }

  lemma NotOnFirst(ifs: seq<Iface>, e: Entry, i: nat, j: nat)
    requires OwnNames(ifs) && i < j < |ifs| && e.iface == ifs[j].name
    requires And(ifs[i].mask, ifs[i].address) == And(ifs[j].mask, ifs[j].address) == e.prefix
    ensures forall s :: !StaysOn(ifs, e, s)
  {
    hide And;
  }
}

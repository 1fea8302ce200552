/** The records of the PWOSPF subsystem that are plain values. Addresses, masks and router ids are
    32-bit words that are only compared and masked. */
module Records {

  datatype Option<+T> = None | Some(value: T)

  /** A 32-bit unsigned machine word, as addresses, masks and router ids are stored. */
  type Word = x: int | 0 <= x < 0x1_0000_0000

  /** Bitwise conjunction. */
  function And(a: nat, b: nat): (r: nat)
    ensures r <= a
  {
    if a == 0 then 0 else 2 * And(a / 2, b / 2) + if a % 2 == 1 && b % 2 == 1 then 1 else 0
  }

  /** A subnet of a router; `rid` is 0 when no router is attached to it. */
  datatype Route = Route(prefix: Word, mask: Word, nextHop: Word, rid: Word)

  /** A router heard by HELLO on an interface. */
  datatype Neighbor = Neighbor(id: Word, ip: Word, timeNotValid: int)

  /** An interface of this router; `neighbors` are the slots in use of an array of `nbrBufSize`. */
  datatype Iface = Iface(name: string, address: Word, mask: Word, helloInt: nat,
                         neighbors: seq<Neighbor>, nbrBufSize: nat)

  /** An entry of the forwarding table. */
  datatype Entry = Entry(prefix: Word, mask: Word, nextHop: Word, iface: string, numHops: int)

  predicate SameSubnet(a: Route, b: Route) {
    a.prefix == b.prefix && a.mask == b.mask && a.rid == b.rid
  }

  /** They may differ in the next hop only. */
  lemma SameButNextHop(a: Route, b: Route)
    ensures SameSubnet(a, b) <==> a == b.(nextHop := a.nextHop)
  {
  }

  predicate SameKey(a: Entry, b: Entry) {
    a.prefix == b.prefix && a.mask == b.mask
  }

  predicate HasKey(e: Entry, s: Route) {
    e.prefix == s.prefix && e.mask == s.mask
  }
}

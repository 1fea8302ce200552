/** LSU packets octet by octet, from the PWOSPF header on: how send_lsu lays out the advertisements,
    how handle_lsu reads them, and that what is read is what was laid out, whatever the byte orders of
    the hosts and however often the packet is relayed. */
module Adverts {
  import opened Checksum
  import opened Flooding
  import opened Octets
  import opened Records

  const BELOW: nat := 34         // the Ethernet and IP headers in front
  const OSPF_TYPE_LSU: Byte := 4
  const OSPF_LEN: nat := 2
  const OSPF_RID: nat := 4
  const OSPF_AID: nat := 8
  const OSPF_HDR_LEN: nat := 24
  const LSU_SEQ: nat := 24
  const LSU_TTL: nat := 27
  const LSU_NUM: nat := 28
  const ADVS: nat := 32
  const ADV_LEN: nat := 12

  /** The octets of the subnet, mask and router id of an advertisement. */
  datatype Octets3 = Octets3(subnet: Quad, mask: Quad, rid: Quad)

  function OctetsOf(littleEndian: bool, r: Route): Octets3 {
    Octets3(Store(littleEndian, r.prefix), Store(littleEndian, r.mask), Store(littleEndian, r.rid))
  }

  function RouteOf(littleEndian: bool, o: Octets3): Route {
    Route(Load(littleEndian, o.subnet), Load(littleEndian, o.mask), 0, Load(littleEndian, o.rid))
  }

  /** The octets of the advertisement at place `k`. */
  function Octets3At(b: seq<Byte>, k: nat): Octets3
    requires ADVS + ADV_LEN * k + ADV_LEN <= |b|
  {
    var at := ADVS + ADV_LEN * k;
    Octets3(QuadAt(b, at), QuadAt(b, at + 4), QuadAt(b, at + 8))
  }

  ghost predicate HoldsAdverts(littleEndian: bool, b: seq<Byte>, advs: seq<Route>) {
    && ADVS + ADV_LEN * |advs| <= |b|
    && forall k | 0 <= k < |advs| :: Octets3At(b, k) == OctetsOf(littleEndian, advs[k])
  }

  /** `b` is an LSU of router `rid` with sequence number `seq_` and these advertisements, written on a
      host of the given byte order, with a checksum that passes the gate. */
  ghost predicate Carries(b: seq<Byte>, littleEndian: bool, rid: Word, seq_: Half, advs: seq<Route>) {
    && |b| == ADVS + ADV_LEN * |advs|
    && b[1] == OSPF_TYPE_LSU && HalfAt(b, OSPF_LEN) == |b| % 0x1_0000
    && QuadAt(b, OSPF_RID) == Store(littleEndian, rid)
    && HalfAt(b, LSU_SEQ) == seq_ && QuadAt(b, LSU_NUM) == Store(false, |advs| % 0x1_0000_0000)
    && HoldsAdverts(littleEndian, b, advs)
    && GateOpen(b[..OSPF_SUMMED])
  }

  /** What that means octet by octet: where each field lies, and which order its octets have. */
  lemma Layout(b: seq<Byte>, littleEndian: bool, rid: Word, seq_: Half, advs: seq<Route>)
    requires Carries(b, littleEndian, rid, seq_, advs)
    ensures |b| == 32 + 12 * |advs| && b[0] == 2 && b[1] == 4
    ensures HalfAt(b, 2) == |b| % 0x1_0000 && QuadAt(b, 4) == Store(littleEndian, rid)
    ensures HalfAt(b, 24) == seq_ && QuadAt(b, 28) == Store(false, |advs| % 0x1_0000_0000)
    ensures forall k | 0 <= k < |advs| ::
              && QuadAt(b, 32 + 12 * k) == Store(littleEndian, advs[k].prefix)
              && QuadAt(b, 36 + 12 * k) == Store(littleEndian, advs[k].mask)
              && QuadAt(b, 40 + 12 * k) == Store(littleEndian, advs[k].rid)
  {
    hide Store, ChecksumOf;
    forall k | 0 <= k < |advs|
      ensures QuadAt(b, 32 + 12 * k) == Store(littleEndian, advs[k].prefix)
      ensures QuadAt(b, 36 + 12 * k) == Store(littleEndian, advs[k].mask)
      ensures QuadAt(b, 40 + 12 * k) == Store(littleEndian, advs[k].rid)
    {
      assert Octets3At(b, k) == OctetsOf(littleEndian, advs[k]);
    }
  }

  /** The loop of send_lsu that moves the advertisements into the packet. */
  method WriteAdverts(pack: array<Byte>, advs: seq<Route>, littleEndian: bool)
    requires pack.Length == ADVS + ADV_LEN * |advs|
    modifies pack
    ensures HoldsAdverts(littleEndian, pack[..], advs)
  {
    var at := ADVS;
    var j := 0;
    while j < |advs|
      invariant 0 <= j <= |advs| && at == ADVS + ADV_LEN * j
      invariant HoldsAdverts(littleEndian, pack[..], advs[..j])
    {
      ghost var before := pack[..];
      PutWord(pack, at, advs[j].prefix, littleEndian);
      PutWord(pack, at + 4, advs[j].mask, littleEndian);
      PutWord(pack, at + 8, advs[j].rid, littleEndian);
      OneMoreAdvert(littleEndian, before, pack[..], advs, j);
      at := at + ADV_LEN;
      j := j + 1;
    }
    assert advs[..j] == advs;
  }

  lemma OneMoreAdvert(littleEndian: bool, b: seq<Byte>, c: seq<Byte>, advs: seq<Route>, j: nat)
    requires j < |advs| && |b| == |c| == ADVS + ADV_LEN * |advs|
    requires HoldsAdverts(littleEndian, b, advs[..j])
    requires forall i | 0 <= i < ADVS + ADV_LEN * j :: c[i] == b[i]
    requires Octets3At(c, j) == OctetsOf(littleEndian, advs[j])
    ensures HoldsAdverts(littleEndian, c, advs[..j + 1])
  {
    forall k | 0 <= k < j
      ensures Octets3At(c, k) == OctetsOf(littleEndian, advs[k])
    {
      assert advs[..j][k] == advs[k];
    }
  }

  /** send_lsu up to its PWOSPF header. */
  method LayOutLsu(rid: Word, lastSeqSent: Half, areaId: Word, advs: seq<Route>, littleEndian: bool)
    returns (pack: array<Byte>)
    ensures fresh(pack) && Carries(pack[..], littleEndian, rid, lastSeqSent, advs) && pack[27] == 255
    ensures QuadAt(pack[..], 8) == Store(false, areaId) && forall i | 14 <= i < 24 :: pack[i] == 0
  {
    hide Store, Htonl, GateOpen, OctetsOf, Stored, Join;
    pack := new Byte[ADVS + ADV_LEN * |advs|];
    WriteAdverts(pack, advs, littleEndian);
    StoredIsThere(pack[..], LSU_SEQ, lastSeqSent);
    PutShort(pack, LSU_SEQ, lastSeqSent, littleEndian);
    pack[LSU_TTL] := INIT_TTL;
    HtonlIsBigEndian(littleEndian, |advs| % 0x1_0000_0000);
    PutWord(pack, LSU_NUM, Htonl(littleEndian, |advs| % 0x1_0000_0000), littleEndian);
    FillHeader(pack, rid, areaId, littleEndian);
  }

  /** The fields of the PWOSPF header of a new LSU, but for the checksum. */
  ghost predicate HeaderOf(b: seq<Byte>, littleEndian: bool, rid: Word, areaId: Word) {
    && ADVS <= |b| && b[0] == OSPF_V2 && b[1] == OSPF_TYPE_LSU && HalfAt(b, OSPF_LEN) == |b| % 0x1_0000
    && QuadAt(b, OSPF_RID) == Store(littleEndian, rid) && QuadAt(b, OSPF_AID) == Store(false, areaId)
    && forall i | OSPF_SUMMED - 2 <= i < OSPF_HDR_LEN :: b[i] == 0
  }

  method FillFields(pack: array<Byte>, rid: Word, areaId: Word, littleEndian: bool)
    requires ADVS <= pack.Length
    modifies pack
    ensures HeaderOf(pack[..], littleEndian, rid, areaId)
    ensures forall i | OSPF_HDR_LEN <= i < pack.Length :: pack[i] == old(pack[i])
  {
    assert Store(littleEndian, 0) == Quad(0, 0, 0, 0);
    HtonlIsBigEndian(littleEndian, areaId);
    hide Store, Htonl, Load, Stored, Join;
    pack[0] := OSPF_V2;
    pack[1] := OSPF_TYPE_LSU;
    var len: Half := pack.Length % 0x1_0000;
    StoredIsThere(pack[..], OSPF_LEN, len);
    PutShort(pack, OSPF_LEN, len, littleEndian);
    PutWord(pack, OSPF_RID, rid, littleEndian);
    PutWord(pack, OSPF_AID, Htonl(littleEndian, areaId), littleEndian);
    PutAuthentication(pack, littleEndian);
  }

  method PutAuthentication(pack: array<Byte>, littleEndian: bool)
    requires ADVS <= pack.Length
    modifies pack
    ensures forall i | OSPF_SUMMED - 2 <= i < OSPF_HDR_LEN :: pack[i] == 0
    ensures forall i | 0 <= i < pack.Length && !(OSPF_SUMMED - 2 <= i < OSPF_HDR_LEN) :: pack[i] == old(pack[i])
  {
    assert Store(littleEndian, 0) == Quad(0, 0, 0, 0);
    hide Store;
    PutShort(pack, OSPF_SUMMED - 2, 0, littleEndian);
    PutWord(pack, OSPF_SUMMED, 0, littleEndian);
    PutWord(pack, OSPF_SUMMED + 4, 0, littleEndian);
    assert QuadAt(pack[..], OSPF_SUMMED) == QuadAt(pack[..], OSPF_SUMMED + 4) == Quad(0, 0, 0, 0);
  }

  /** The PWOSPF header of a new LSU. */
  method FillHeader(pack: array<Byte>, rid: Word, areaId: Word, littleEndian: bool)
    requires ADVS <= pack.Length
    modifies pack
    ensures HeaderOf(pack[..], littleEndian, rid, areaId) && GateOpen(pack[..OSPF_SUMMED])
    ensures forall i | OSPF_HDR_LEN <= i < pack.Length :: pack[i] == old(pack[i])
  {
    FillFields(pack, rid, areaId, littleEndian);
    ghost var header := pack[..];
    FillPwospfChecksum(pack, littleEndian);
    SendersPassGate(header[..OSPF_SUMMED]);
    hide GateOpen, ChecksumOf, Store;
    forall i | OSPF_SUMMED <= i < pack.Length
      ensures pack[i] == header[i]
    {
      assert pack[OSPF_SUMMED..][i - OSPF_SUMMED] == header[OSPF_SUMMED..][i - OSPF_SUMMED];
    }
    assert forall i | 0 <= i < OSPF_SUMMED && i != OSPF_CSUM && i != OSPF_CSUM + 1 ::
           pack[i] == pack[..OSPF_SUMMED][i] == header[i];
  }

  /** What of `pack` a frame of `BELOW + len` octets holds, its size being kept in 16 bits. */
  function Cut(pack: seq<Byte>, len: nat): seq<Byte> {
    var size := (BELOW + len) % 0x1_0000;
    if size < BELOW then [] else if size - BELOW < |pack| then pack[..size - BELOW] else pack
  }

  /** The number of advertisements that a packet announces. */
  function Announced(b: seq<Byte>): Word
    requires ADVS <= |b|
  {
    Load(false, QuadAt(b, LSU_NUM))
  }

  /** The advertisements read from a packet; None when that runs past its end. */
  function Decoded(littleEndian: bool, b: seq<Byte>): Option<seq<Route>> {
    if |b| < ADVS || |b| < ADVS + ADV_LEN * Announced(b) then None
    else Some(seq(Announced(b), k requires 0 <= k < Announced(b) => RouteOf(littleEndian, Octets3At(b, k))))
  }

  /** The loop of handle_lsu that reads the advertisements. */
  method ReadAdverts(b: seq<Byte>, littleEndian: bool) returns (r: Option<seq<Route>>)
    ensures r == Decoded(littleEndian, b)
  {
    if |b| < ADVS {
      return None;
    }
    var numAdsRcd := Htonl(littleEndian, Load(littleEndian, QuadAt(b, LSU_NUM)));
    NtohlReads(littleEndian, QuadAt(b, LSU_NUM));
    var advertisements := [];
    var at := ADVS;
    var i := 0;
    while i < numAdsRcd
      invariant 0 <= i <= numAdsRcd && at == ADVS + ADV_LEN * i <= |b| && |advertisements| == i
      invariant forall k | 0 <= k < i :: advertisements[k] == RouteOf(littleEndian, Octets3At(b, k))
    {
      if |b| < at + ADV_LEN {
        return None;
      }
      advertisements := advertisements + [RouteOf(littleEndian, Octets3At(b, i))];
      at := at + ADV_LEN;
      i := i + 1;
    }
    assert Decoded(littleEndian, b).Some? && advertisements == Decoded(littleEndian, b).value;
    return Some(advertisements);
  }

  lemma NtohlReads(littleEndian: bool, q: Quad)
    ensures Htonl(littleEndian, Load(littleEndian, q)) == Load(false, q)
  {
    StoreUndoesLoad(false, q);
    HtonlIsBigEndian(littleEndian, Load(false, q));
  }

  /** The same octets in the same order, though the words may differ between the hosts. */
  ghost predicate SameAdverts(le1: bool, sent: seq<Route>, le2: bool, got: seq<Route>) {
    |got| == |sent| && forall k | 0 <= k < |sent| :: OctetsOf(le2, got[k]) == OctetsOf(le1, sent[k])
  }

  lemma OctetsRoundTrip(le1: bool, le2: bool, o: Octets3, r: Route)
    requires o == OctetsOf(le1, r)
    ensures OctetsOf(le2, RouteOf(le2, o)) == o
    ensures le1 == le2 ==> SameSubnet(RouteOf(le2, o), r)
  {
    StoreUndoesLoad(le2, o.subnet);
    StoreUndoesLoad(le2, o.mask);
    StoreUndoesLoad(le2, o.rid);
    LoadUndoesStore(le1, r.prefix);
    LoadUndoesStore(le1, r.mask);
    LoadUndoesStore(le1, r.rid);
    hide Load, Store;
  }

  lemma WholePacketDecodes(b: seq<Byte>, le1: bool, le2: bool, rid: Word, seq_: Half, advs: seq<Route>)
    requires Carries(b, le1, rid, seq_, advs) && |advs| < 0x1_0000_0000
    ensures Decoded(le2, b).Some? && SameAdverts(le1, advs, le2, Decoded(le2, b).value)
    ensures le1 == le2 ==> forall k | 0 <= k < |advs| :: SameSubnet(Decoded(le2, b).value[k], advs[k])
  {
    hide GateOpen, OctetsOf, RouteOf, Load, Store, SameSubnet, HalfAt;
    LoadUndoesStore(false, |advs|);
    assert Announced(b) == |advs|;
    hide QuadAt, Announced;
    var got := Decoded(le2, b).value;
    forall k | 0 <= k < |advs|
      ensures OctetsOf(le2, got[k]) == OctetsOf(le1, advs[k]) && (le1 == le2 ==> SameSubnet(got[k], advs[k]))
    {
      OctetsRoundTrip(le1, le2, Octets3At(b, k), advs[k]);
    }
  }

  lemma NoWrap(n: nat)
    ensures n < 0x1_0000 ==> n % 0x1_0000 == n
  {
  }

  lemma CutKeepsAll(c: seq<Byte>, len: nat)
    requires len == |c| && BELOW + len < 0x1_0000
    ensures Cut(c, len) == c
  {
    NoWrap(BELOW + len);
  }

  /** The receiver recovers exactly the advertisements laid out if and only if the frame size fits its
      16-bit field. */
  lemma RoundTripExactlyWhenItFits(b: seq<Byte>, le1: bool, le2: bool, rid: Word, seq_: Half, advs: seq<Route>)
    requires Carries(b, le1, rid, seq_, advs)
    ensures var got := Decoded(le2, Cut(b, |b|));
            got.Some? && SameAdverts(le1, advs, le2, got.value) <==> 66 + 12 * |advs| < 0x1_0000
  {
    hide Carries, SameAdverts, Decoded, Cut;
    assert |b| == ADVS + ADV_LEN * |advs| by { CarriesSize(b, le1, rid, seq_, advs); }
    if BELOW + |b| < 0x1_0000 {
      CutKeepsAll(b, |b|);
      WholePacketDecodes(b, le1, le2, rid, seq_, advs);
    } else {
      CutTakesAway(b);
      PartDoesNotDecode(b, Cut(b, |b|), le1, le2, rid, seq_, advs);
    }
  }

  lemma CarriesSize(b: seq<Byte>, le: bool, rid: Word, seq_: Half, advs: seq<Route>)
    requires Carries(b, le, rid, seq_, advs)
    ensures |b| == ADVS + ADV_LEN * |advs|
  {
  }

  lemma CutTakesAway(b: seq<Byte>)
    requires 0x1_0000 <= BELOW + |b|
    ensures Cut(b, |b|) < b
  {
    SmallRemainder(BELOW + |b|);
  }

  lemma SmallRemainder(n: nat)
    ensures n % 0x1_0000 < 0x1_0000
  {
  }

  /** A packet cut short announces more than it holds, or is too short to announce anything. */
  lemma PartDoesNotDecode(b: seq<Byte>, c: seq<Byte>, le1: bool, le2: bool, rid: Word, seq_: Half, advs: seq<Route>)
    requires Carries(b, le1, rid, seq_, advs) && c < b
    ensures !(Decoded(le2, c).Some? && SameAdverts(le1, advs, le2, Decoded(le2, c).value))
  {
    hide HoldsAdverts, GateOpen, HalfAt, Store, Load;
    assert ADVS <= |c| ==> QuadAt(c, LSU_NUM) == QuadAt(b, LSU_NUM);
    hide QuadAt;
    LoadUndoesStore(false, |advs| % 0x1_0000_0000);
  }

  // ---- relays ----

  /** What forward_lsu changes from the PWOSPF header on. */
  ghost predicate Relayed(b: seq<Byte>, c: seq<Byte>) {
    && ADVS <= |b| == |c|
    && c[LSU_TTL] == Dec8(b[LSU_TTL])
    && c[..OSPF_SUMMED] == Stored(b[..OSPF_SUMMED], OSPF_CSUM, ChecksumOf(Stored(b[..OSPF_SUMMED], OSPF_CSUM, 0)))
    && forall i | OSPF_SUMMED <= i < |b| && i != LSU_TTL :: c[i] == b[i]
  }

  /** forward_lsu from the PWOSPF header on: one off the time to live and a new checksum. The frames it
      sends are as long as the length field says. */
  method RelayLsu(pack: array<Byte>, littleEndian: bool) returns (size: Half)
    requires ADVS <= pack.Length
    modifies pack
    ensures Relayed(old(pack[..]), pack[..])
    ensures size == (BELOW + HalfAt(pack[..], OSPF_LEN)) % 0x1_0000
  {
    ghost var before := pack[..];
    pack[LSU_TTL] := Dec8(pack[LSU_TTL]);
    assert pack[..OSPF_SUMMED] == before[..OSPF_SUMMED];
    assert forall i | OSPF_SUMMED <= i < pack.Length && i != LSU_TTL ::
           pack[OSPF_SUMMED..][i - OSPF_SUMMED] == before[i];
    ghost var edited := pack[OSPF_SUMMED..];
    var ospfLen := HalfAt(pack[..], OSPF_LEN);
    FillPwospfChecksum(pack, littleEndian);
    assert forall i | OSPF_SUMMED <= i < pack.Length ::
           pack[i] == pack[OSPF_SUMMED..][i - OSPF_SUMMED] == edited[i - OSPF_SUMMED];
    assert pack[..OSPF_SUMMED][OSPF_LEN] == pack[OSPF_LEN] && pack[..OSPF_SUMMED][OSPF_LEN + 1] == pack[OSPF_LEN + 1];
    size := (BELOW + ospfLen) % 0x1_0000;
  }

  /** The packet that the next router receives. */
  ghost predicate Hop(b: seq<Byte>, d: seq<Byte>) {
    exists c :: Relayed(b, c) && d == Cut(c, HalfAt(c, OSPF_LEN))
  }

  /** Forwarding leaves what was laid out in place. */
  lemma RelayKeeps(b: seq<Byte>, c: seq<Byte>, le: bool, rid: Word, seq_: Half, advs: seq<Route>)
    requires Carries(b, le, rid, seq_, advs) && Relayed(b, c)
    ensures Carries(c, le, rid, seq_, advs) && HalfAt(c, OSPF_LEN) == |c| % 0x1_0000
  {
    hide ChecksumOf, Store, OctetsOf;
    RelaySummed(b, c);
    hide GateOpen, Stored;
    forall k | 0 <= k < |advs|
      ensures Octets3At(c, k) == Octets3At(b, k)
    {
    }
  }

  lemma RelaySummed(b: seq<Byte>, c: seq<Byte>)
    requires Relayed(b, c) && GateOpen(b[..OSPF_SUMMED])
    ensures GateOpen(c[..OSPF_SUMMED])
    ensures forall i | 0 <= i < OSPF_SUMMED && i != OSPF_CSUM && i != OSPF_CSUM + 1 :: c[i] == b[i]
  {
    hide ChecksumOf;
    SendersPassGate(b[..OSPF_SUMMED]);
    assert forall i | 0 <= i < OSPF_SUMMED && i != OSPF_CSUM && i != OSPF_CSUM + 1 ::
           c[i] == c[..OSPF_SUMMED][i] == b[i];
  }

  lemma HopKeepsLsu(b: seq<Byte>, d: seq<Byte>, le: bool, rid: Word, seq_: Half, advs: seq<Route>)
    requires Carries(b, le, rid, seq_, advs) && Hop(b, d) && BELOW + |b| < 0x1_0000
    ensures Carries(d, le, rid, seq_, advs) && d[LSU_TTL] == Dec8(b[LSU_TTL])
  {
    var c :| Relayed(b, c) && d == Cut(c, HalfAt(c, OSPF_LEN));
    RelayKeeps(b, c, le, rid, seq_, advs);
    assert |b| == |c| == ADVS + ADV_LEN * |advs|;
    hide ChecksumOf, GateOpen, Carries, Stored, HalfAt, Cut;
    NoWrap(|c|);
    CutKeepsAll(c, HalfAt(c, OSPF_LEN));
  }

  lemma {:induction false} RelaysCarry(packets: seq<seq<Byte>>, k: nat, le: bool, rid: Word, seq_: Half,
            advs: seq<Route>)
    requires k < |packets| && forall i | 0 <= i < |packets| - 1 :: Hop(packets[i], packets[i + 1])
    requires Carries(packets[0], le, rid, seq_, advs) && packets[0][LSU_TTL] == INIT_TTL
    requires BELOW + ADVS + ADV_LEN * |advs| < 0x1_0000
    ensures Carries(packets[k], le, rid, seq_, advs) && packets[k][LSU_TTL] == (INIT_TTL - k) % 0x100
  {
    hide Hop, GateOpen, HoldsAdverts, HalfAt, QuadAt, Store;
    if k > 0 {
      RelaysCarry(packets, k - 1, le, rid, seq_, advs);
      HopKeepsLsu(packets[k - 1], packets[k], le, rid, seq_, advs);
    }
  }

  /** An LSU that fits its frame is accepted by the checksum gate and read as it was laid out after any
      number of relays, by hosts of either byte order; each relay takes one off its time to live. */
  lemma LsuSurvivesRelays(packets: seq<seq<Byte>>, k: nat, le1: bool, le2: bool, rid: Word, seq_: Half,
            advs: seq<Route>)
    requires k < |packets| && forall i | 0 <= i < |packets| - 1 :: Hop(packets[i], packets[i + 1])
    requires Carries(packets[0], le1, rid, seq_, advs) && packets[0][LSU_TTL] == INIT_TTL
    requires BELOW + ADVS + ADV_LEN * |advs| < 0x1_0000
    ensures Carries(packets[k], le1, rid, seq_, advs) && packets[k][LSU_TTL] == (INIT_TTL - k) % 0x100
    ensures GateOpen(packets[k][..OSPF_SUMMED])
    ensures var got := Decoded(le2, packets[k]); got.Some? && SameAdverts(le1, advs, le2, got.value)
  {
    hide Hop, HoldsAdverts, HalfAt, QuadAt, Store, Decoded, SameAdverts;
    RelaysCarry(packets, k, le1, rid, seq_, advs);
    WholePacketDecodes(packets[k], le1, le2, rid, seq_, advs);
  }
}

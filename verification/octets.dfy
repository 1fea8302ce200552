/** Octets in memory and on the wire: 16- and 32-bit values in the byte order of the host and of the
    network. */
module Octets {
  import opened Records

  type Byte = x: int | 0 <= x < 0x100
  type Half = x: int | 0 <= x < 0x1_0000

  /** Four octets in the order they lie in memory. */
  datatype Quad = Quad(b0: Byte, b1: Byte, b2: Byte, b3: Byte)

  function Join(hi: int, lo: int): int {
    hi * 0x100 + lo
  }

  lemma JoinIsHalf(a: Byte, b: Byte)
    ensures 0 <= Join(a, b) < 0x1_0000
  {
  }

  /** The 16-bit value that lies big-endian at place `k`. */
  function HalfAt(b: seq<Byte>, k: nat): Half
    requires k + 1 < |b|
  {
    Join(b[k], b[k + 1])
  }

  function QuadAt(b: seq<Byte>, k: nat): Quad
    requires k + 3 < |b|
  {
    Quad(b[k], b[k + 1], b[k + 2], b[k + 3])
  }

  /** `b` with the 16-bit value `v` stored big-endian at place `k`. */
  function Stored(b: seq<Byte>, k: nat, v: Half): seq<Byte>
    requires k + 1 < |b|
  {
    b[k := v / 0x100][k + 1 := v % 0x100]
  }

  lemma StoredIsThere(b: seq<Byte>, k: nat, v: Half)
    requires k + 1 < |b|
    ensures |Stored(b, k, v)| == |b| && HalfAt(Stored(b, k, v), k) == v
    ensures forall i | 0 <= i < |b| && i != k && i != k + 1 :: Stored(b, k, v)[i] == b[i]
  {
  }

  /** The machine word that a host reads from four octets. */
  function Load(littleEndian: bool, q: Quad): Word {
    if littleEndian then Join(q.b3, q.b2) * 0x1_0000 + Join(q.b1, q.b0)
    else Join(q.b0, q.b1) * 0x1_0000 + Join(q.b2, q.b3)
  }

  /** The four octets of a machine word in host memory. */
  function Store(littleEndian: bool, w: Word): Quad {
    var (hi: Half, lo: Half) := (w / 0x1_0000, w % 0x1_0000);
    if littleEndian then Quad(lo % 0x100, lo / 0x100, hi % 0x100, hi / 0x100)
    else Quad(hi / 0x100, hi % 0x100, lo / 0x100, lo % 0x100)
  }

  /** The octets that `w` is the value of, most significant first, lie in this order on a big-endian host, and the other
      way round on a little-endian one. */
  lemma StoreOrder(w: Word)
    ensures var q := Store(false, w);
            && w == q.b0 * 0x100_0000 + q.b1 * 0x1_0000 + q.b2 * 0x100 + q.b3
            && Store(true, w) == Quad(q.b3, q.b2, q.b1, q.b0)
  {
  }

  lemma JoinSplits(hi: int, lo: int, base: int)
    requires 0 <= lo < base && base in {0x100, 0x1_0000}
    ensures (hi * base + lo) / base == hi && (hi * base + lo) % base == lo
  {
  }

  lemma LoadUndoesStore(littleEndian: bool, w: Word)
    ensures Load(littleEndian, Store(littleEndian, w)) == w
  {
    var (hi: Half, lo: Half) := (w / 0x1_0000, w % 0x1_0000);
    assert Join(hi / 0x100, hi % 0x100) == hi && Join(lo / 0x100, lo % 0x100) == lo;
    hide Join;
  }

  lemma StoreUndoesLoad(littleEndian: bool, q: Quad)
    ensures Store(littleEndian, Load(littleEndian, q)) == q
  {
    if littleEndian {
      StoreOfHalves(true, q.b3, q.b2, q.b1, q.b0);
    } else {
      StoreOfHalves(false, q.b0, q.b1, q.b2, q.b3);
    }
    hide Join, Store;
  }

  lemma StoreOfHalves(littleEndian: bool, b0: Byte, b1: Byte, b2: Byte, b3: Byte)
    ensures Store(littleEndian, Join(b0, b1) * 0x1_0000 + Join(b2, b3)) ==
            if littleEndian then Quad(b3, b2, b1, b0) else Quad(b0, b1, b2, b3)
  {
    JoinSplits(b0, b1, 0x100);
    JoinSplits(b2, b3, 0x100);
    JoinSplits(Join(b0, b1), Join(b2, b3), 0x1_0000);
    hide Join;
  }

  /** htons. */
  function Htons(littleEndian: bool, v: Half): Half {
    if littleEndian then v % 0x100 * 0x100 + v / 0x100 else v
  }

  /** The two octets of a 16-bit value in host memory. */
  function InMemory(littleEndian: bool, v: Half): (Byte, Byte) {
    if littleEndian then (v % 0x100, v / 0x100) else (v / 0x100, v % 0x100)
  }

  /** On either kind of host, htons puts a value in memory big-endian. */
  lemma HtonsIsBigEndian(littleEndian: bool, v: Half)
    ensures InMemory(littleEndian, Htons(littleEndian, v)) == (v / 0x100, v % 0x100)
  {
  }

  /** htonl and ntohl, which are the same swap. */
  function Htonl(littleEndian: bool, w: Word): Word {
    if littleEndian then Htons(true, w % 0x1_0000) * 0x1_0000 + Htons(true, w / 0x1_0000) else w
  }

  /** On either kind of host, htonl puts a word in memory big-endian, and ntohl reads it back. */
  lemma HtonlIsBigEndian(littleEndian: bool, w: Word)
    ensures Store(littleEndian, Htonl(littleEndian, w)) == Store(false, w)
    ensures Htonl(littleEndian, Load(littleEndian, Store(false, w))) == w
  {
    if littleEndian {
      var (hi: Half, lo: Half) := (w / 0x1_0000, w % 0x1_0000);
      SwapSplits(hi);
      SwapSplits(lo);
      JoinSplits(Htons(true, lo), Htons(true, hi), 0x1_0000);
      LoadIsSwapped(w);
    }
  }

  lemma SwapSplits(v: Half)
    ensures Htons(true, v) / 0x100 == v % 0x100 && Htons(true, v) % 0x100 == v / 0x100
    ensures Htons(true, Htons(true, v)) == v
  {
  }

  lemma LoadIsSwapped(w: Word)
    ensures Htonl(true, Load(true, Store(false, w))) == w
  {
    var (hi: Half, lo: Half) := (w / 0x1_0000, w % 0x1_0000);
    assert Load(true, Store(false, w)) == Htons(true, lo) * 0x1_0000 + Htons(true, hi);
    JoinSplits(Htons(true, lo), Htons(true, hi), 0x1_0000);
    SwapSplits(hi);
    SwapSplits(lo);
  }

  /** Stores `v` with htons at place `k` of a header. */
  method PutShort(h: array<Byte>, k: nat, v: Half, littleEndian: bool)
    requires k + 1 < h.Length
    modifies h
    ensures h[..] == Stored(old(h[..]), k, v)
  {
    HtonsIsBigEndian(littleEndian, v);
    var m := InMemory(littleEndian, Htons(littleEndian, v));
    h[k] := m.0;
    h[k + 1] := m.1;
  }

  /** Stores a machine word as it is at place `k`. */
  method PutWord(h: array<Byte>, k: nat, w: Word, littleEndian: bool)
    requires k + 3 < h.Length
    modifies h
    ensures QuadAt(h[..], k) == Store(littleEndian, w)
    ensures forall i | 0 <= i < h.Length && !(k <= i < k + 4) :: h[i] == old(h[i])
  {
    var q := Store(littleEndian, w);
    h[k] := q.b0;
    h[k + 1] := q.b1;
    h[k + 2] := q.b2;
    h[k + 3] := q.b3;
  }
}

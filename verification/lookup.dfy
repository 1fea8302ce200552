/** Route selection: the table walk of get_dyn_routing_if and get_static_routing_if, which compares
    masks as raw machine words, and why that is longest-prefix match in either byte order. */
module Lookup {
  import opened Octets
  import opened Records

  predicate Matches(e: Entry, dst: Word) {
    And(e.mask, dst) == e.prefix
  }

  /** The last of the matching entries whose mask is the greatest machine word. */
  function Best(t: seq<Entry>, dst: Word): (r: Option<Entry>)
  {
    if t == [] then None
    else
      var last := t[|t| - 1];
      var best := Best(t[..|t| - 1], dst);
      if Matches(last, dst) && (best.None? || best.value.mask <= last.mask) then Some(last) else best
  }

  /** Entry `k` matches, no match has a greater mask, and no later match has the same one. */
  ghost predicate SelectedAt(t: seq<Entry>, dst: Word, k: nat) {
    && k < |t| && Matches(t[k], dst)
    && (forall i | 0 <= i < |t| && Matches(t[i], dst) :: t[i].mask <= t[k].mask)
    && (forall i | k < i < |t| && Matches(t[i], dst) :: t[i].mask < t[k].mask)
  }

  lemma {:induction false} BestIsSelected(t: seq<Entry>, dst: Word) returns (k: nat)
    ensures Best(t, dst).None? ==> forall i | 0 <= i < |t| :: !Matches(t[i], dst)
    ensures Best(t, dst).Some? ==> SelectedAt(t, dst, k) && t[k] == Best(t, dst).value
  {
    hide Matches;
    k := 0;
    if t != [] {
      var n := |t| - 1;
      k := BestIsSelected(t[..n], dst);
      assert forall i | 0 <= i < n :: t[i] == t[..n][i];
      if Best(t, dst) != Best(t[..n], dst) || Best(t[..n], dst).None?
         || (Matches(t[n], dst) && Best(t[..n], dst).value.mask <= t[n].mask) {
        k := n;
      }
    }
  }

  /** The table walk: keeps the best entry so far. */
  method Select(t: seq<Entry>, dst: Word) returns (response: Option<Entry>)
    ensures response == Best(t, dst)
    ensures response.None? ==> forall i | 0 <= i < |t| :: !Matches(t[i], dst)
    ensures response.Some? ==> exists k: nat :: SelectedAt(t, dst, k) && t[k] == response.value
  {
    hide Matches;
    response := None;
    var minMask: Word := 0;
    for current := 0 to |t|
      invariant response == Best(t[..current], dst)
      invariant minMask == if response.Some? then response.value.mask else 0
    {
      assert t[..current + 1][..current] == t[..current];
      if Matches(t[current], dst) {
        if minMask <= t[current].mask {
          minMask := t[current].mask;
          response := Some(t[current]);
        }
      }
    }
    assert t[..|t|] == t;
    ghost var k := BestIsSelected(t, dst);
  }

  /** The byte with `n` leading ones. */
  function OnesByte(n: int): Byte {
    if n <= 0 then 0 else if n == 1 then 0x80 else if n == 2 then 0xC0 else if n == 3 then 0xE0
    else if n == 4 then 0xF0 else if n == 5 then 0xF8 else if n == 6 then 0xFC else if n == 7 then 0xFE
    else 0xFF
  }

  /** The network mask of prefix length `p`. */
  function NetMask(p: nat): Quad {
    Quad(OnesByte(p), OnesByte(p - 8), OnesByte(p - 16), OnesByte(p - 24))
  }

  /** Comparing contiguous masks as raw words compares their prefix lengths, whatever the byte order
      of the host. */
  lemma RawOrderIsPrefixOrder(littleEndian: bool, p: nat, q: nat)
    requires p <= 32 && q <= 32
    ensures Load(littleEndian, NetMask(p)) <= Load(littleEndian, NetMask(q)) <==> p <= q
  {
  }

  /** Entry `e` has a contiguous mask of prefix length `p` on a host of the given byte order. */
  ghost predicate HasLength(littleEndian: bool, e: Entry, p: nat) {
    p <= 32 && e.mask == Load(littleEndian, NetMask(p))
  }

  /** With contiguous masks the entry chosen is the last of those of greatest prefix length. */
  lemma SelectedIsLongest(littleEndian: bool, t: seq<Entry>, dst: Word, k: nat, p: nat)
    requires SelectedAt(t, dst, k) && HasLength(littleEndian, t[k], p)
    ensures forall i, q: nat | 0 <= i < |t| && Matches(t[i], dst) && HasLength(littleEndian, t[i], q) ::
              q <= p && (k < i ==> q < p)
  {
    hide Matches, Load, NetMask;
    forall i, q: nat | 0 <= i < |t| && Matches(t[i], dst) && HasLength(littleEndian, t[i], q)
      ensures q <= p && (k < i ==> q < p)
    {
      RawOrderIsPrefixOrder(littleEndian, q, p);
      RawOrderIsPrefixOrder(littleEndian, p, q);
    }
  }

  // ---- what a match means ----

  function Pow2(n: nat): (r: nat)
    ensures 0 < r
  {
    if n == 0 then 1 else 2 * Pow2(n - 1)
  }

  lemma {:induction false} Pow2Adds(a: nat, b: nat)
    ensures Pow2(a + b) == Pow2(a) * Pow2(b)
  {
    if a > 0 {
      Pow2Adds(a - 1, b);
      assert Pow2(a + b) == 2 * (Pow2(a - 1) * Pow2(b));
      assert 2 * Pow2(a - 1) * Pow2(b) == 2 * (Pow2(a - 1) * Pow2(b));
    }
  }

  lemma HalfOfSplit(a: nat, q: nat, l: nat)
    ensures (a * (2 * q) + l) / 2 == a * q + l / 2 && (a * (2 * q) + l) % 2 == l % 2
    ensures a * (2 * q) == 2 * (a * q)
  {
    assert a * (2 * q) == 2 * (a * q);
  }

  /** Conjunction works on the high and the low bits separately. */
  lemma {:induction false} AndSplits(k: nat, a: nat, l: nat, b: nat, m: nat)
    requires l < Pow2(k) && m < Pow2(k)
    ensures And(a * Pow2(k) + l, b * Pow2(k) + m) == And(a, b) * Pow2(k) + And(l, m)
  {
    if k > 0 {
      AndSplits(k - 1, a, l / 2, b, m / 2);
      AndDoubles(Pow2(k - 1), a, l, b, m);
    }
  }

  lemma AndDoubles(q: nat, a: nat, l: nat, b: nat, m: nat)
    requires And(a * q + l / 2, b * q + m / 2) == And(a, b) * q + And(l / 2, m / 2)
    ensures And(a * (2 * q) + l, b * (2 * q) + m) == And(a, b) * (2 * q) + And(l, m)
  {
    hide And;
    var (x, y) := (a * (2 * q) + l, b * (2 * q) + m);
    HalfOfSplit(a, q, l);
    HalfOfSplit(b, q, m);
    HalfOfSplit(And(a, b), q, 0);
    AndOfHalves(x, y, a * q + l / 2, b * q + m / 2, l, m);
  }

  /** The last bits and the rest apart. */
  lemma AndOfHalves(x: nat, y: nat, halfX: nat, halfY: nat, l: nat, m: nat)
    requires x / 2 == halfX && y / 2 == halfY && x % 2 == l % 2 && y % 2 == m % 2
    ensures And(x, y) - 2 * And(halfX, halfY) == And(l, m) - 2 * And(l / 2, m / 2)
  {
    AndStep(x, y);
    AndStep(l, m);
    hide And;
  }

  lemma AndStep(a: nat, b: nat)
    ensures And(a, b) == 2 * And(a / 2, b / 2) + if a % 2 == 1 && b % 2 == 1 then 1 else 0
  {
  }

  lemma {:induction false} AndOnes(p: nat, x: nat)
    requires x < Pow2(p)
    ensures And(Pow2(p) - 1, x) == x
  {
    if p > 0 {
      AndOnes(p - 1, x / 2);
    }
  }

  function AndQuad(a: Quad, b: Quad): Quad {
    Quad(And(a.b0, b.b0), And(a.b1, b.b1), And(a.b2, b.b2), And(a.b3, b.b3))
  }

  lemma Pow2Values()
    ensures Pow2(0) == 1 && Pow2(8) == 0x100 && Pow2(16) == 0x1_0000 && Pow2(24) == 0x100_0000
            && Pow2(32) == 0x1_0000_0000
  {
    assert Pow2(8) == 0x100;
    Pow2Adds(8, 8);
    Pow2Adds(8, 16);
    Pow2Adds(8, 24);
  }

  lemma AndJoin(a: Byte, b: Byte, c: Byte, d: Byte)
    ensures And(Join(a, b), Join(c, d)) == Join(And(a, c), And(b, d))
  {
    Pow2Values();
    hide And, Pow2;
    AndSplits(8, a, b, c, d);
  }

  lemma AndHalves(a: nat, b: nat, c: nat, d: nat)
    requires b < 0x1_0000 && d < 0x1_0000
    ensures And(a * 0x1_0000 + b, c * 0x1_0000 + d) == And(a, c) * 0x1_0000 + And(b, d)
  {
    Pow2Values();
    hide And, Pow2;
    AndSplits(16, a, b, c, d);
  }

  lemma AndInOrder(a: Quad, b: Quad)
    ensures And(Load(false, a), Load(false, b)) == Load(false, AndQuad(a, b))
  {
    JoinIsHalf(a.b0, a.b1);
    JoinIsHalf(a.b2, a.b3);
    JoinIsHalf(b.b0, b.b1);
    JoinIsHalf(b.b2, b.b3);
    hide And, Join;
    AndJoin(a.b0, a.b1, b.b0, b.b1);
    AndJoin(a.b2, a.b3, b.b2, b.b3);
    AndHalves(Join(a.b0, a.b1), Join(a.b2, a.b3), Join(b.b0, b.b1), Join(b.b2, b.b3));
  }

  function Backwards(q: Quad): Quad {
    Quad(q.b3, q.b2, q.b1, q.b0)
  }

  /** Conjunction of words is conjunction of their octets, in either byte order. */
  lemma AndOctets(littleEndian: bool, a: Quad, b: Quad)
    ensures And(Load(littleEndian, a), Load(littleEndian, b)) == Load(littleEndian, AndQuad(a, b))
  {
    hide And, Join;
    if littleEndian {
      AndInOrder(Backwards(a), Backwards(b));
    } else {
      AndInOrder(a, b);
    }
  }

  /** The number that an address spells in network order. */
  function Spelled(littleEndian: bool, w: Word): Word {
    Load(false, Store(littleEndian, w))
  }

  lemma NetMaskIs(p: nat)
    requires p <= 32
    ensures Load(false, NetMask(p)) + Pow2(32 - p) == Pow2(32)
  {
    Pow2Values();
    var k := if p <= 8 then 24 else if p <= 16 then 16 else if p <= 24 then 8 else 0;
    OnesByteIs(32 - p - k);
    Pow2Adds(32 - p - k, k);
    hide Pow2;
  }

  lemma OnesByteIs(zeros: nat)
    requires zeros <= 8
    ensures OnesByte(8 - zeros) == 0x100 - Pow2(zeros)
  {
    assert Pow2(0) == 1 && Pow2(1) == 2 && Pow2(2) == 4 && Pow2(3) == 8 && Pow2(4) == 16;
  }

  /** The prefix of `e` is `dst` with all but its first `p` bits cleared, in network order. */
  ghost predicate Agrees(littleEndian: bool, e: Entry, dst: Word, p: nat) {
    p <= 32 && Spelled(littleEndian, e.prefix) == Spelled(littleEndian, dst) / Pow2(32 - p) * Pow2(32 - p)
  }

  /** With a contiguous mask of length `p` an entry matches exactly the addresses that agree with its
      prefix in the first `p` bits in network order; a prefix with later bits set matches nothing. */
  lemma MatchIsPrefixMatch(littleEndian: bool, e: Entry, dst: Word, p: nat)
    requires HasLength(littleEndian, e, p)
    ensures Matches(e, dst) <==> Agrees(littleEndian, e, dst, p)
  {
    var q := Store(littleEndian, dst);
    var masked := AndQuad(NetMask(p), q);
    AndOctets(littleEndian, NetMask(p), q);
    AndOctets(false, NetMask(p), q);
    LoadUndoesStore(littleEndian, dst);
    SameSpelling(littleEndian, masked, e.prefix);
    NetMaskIs(p);
    TopBits(p, Load(false, NetMask(p)), Load(false, q));
  }

  lemma SameSpelling(littleEndian: bool, q: Quad, w: Word)
    ensures Load(littleEndian, q) == w <==> Load(false, q) == Spelled(littleEndian, w)
  {
    StoreUndoesLoad(littleEndian, q);
    StoreUndoesLoad(false, q);
    LoadUndoesStore(littleEndian, w);
    StoreUndoesLoad(false, Store(littleEndian, w));
    hide Load, Store;
  }

  /** A mask of `p` ones in front keeps the first `p` bits. */
  lemma TopBits(p: nat, mask: Word, d: Word)
    requires p <= 32 && mask + Pow2(32 - p) == Pow2(32)
    ensures And(mask, d) == d / Pow2(32 - p) * Pow2(32 - p)
  {
    Pow2Values();
    Pow2Adds(p, 32 - p);
    Distributes(Pow2(p), Pow2(32 - p));
    hide Pow2, And;
    OnesAbove(p, 32 - p, mask, d);
  }

  lemma OnesAbove(p: nat, k: nat, mask: nat, d: nat)
    requires mask == (Pow2(p) - 1) * Pow2(k) && d < Pow2(p) * Pow2(k)
    ensures And(mask, d) == d / Pow2(k) * Pow2(k)
  {
    hide Pow2, And;
    QuotientBelow(d, Pow2(p), Pow2(k));
    AndSplits(k, Pow2(p) - 1, 0, d / Pow2(k), d % Pow2(k));
    AndOnes(p, d / Pow2(k));
    AndZero(d % Pow2(k));
  }

  lemma AndZero(x: nat)
    ensures And(0, x) == 0
  {
  }

  lemma Distributes(n: nat, base: nat)
    ensures (n - 1) * base == n * base - base
  {
  }

  lemma QuotientBelow(d: nat, n: nat, base: nat)
    requires 0 < base && d < n * base
    ensures d / base < n && d == d / base * base + d % base && d % base < base
  {
  }

  /** The table walk is longest-prefix match: with contiguous masks of the given lengths it finds
      nothing exactly when no prefix agrees with the destination, and else the last of the longest that
      do, on hosts of either byte order. */
  lemma LongestPrefixMatch(littleEndian: bool, t: seq<Entry>, lengths: seq<nat>, dst: Word) returns (k: nat)
    requires |lengths| == |t| && forall i | 0 <= i < |t| :: HasLength(littleEndian, t[i], lengths[i])
    ensures Best(t, dst).None? <==> forall i | 0 <= i < |t| :: !Agrees(littleEndian, t[i], dst, lengths[i])
    ensures Best(t, dst).Some? ==> k < |t| && t[k] == Best(t, dst).value && Agrees(littleEndian, t[k], dst, lengths[k])
    ensures Best(t, dst).Some? ==>
              forall i | 0 <= i < |t| && Agrees(littleEndian, t[i], dst, lengths[i]) ::
                lengths[i] <= lengths[k] && (k < i ==> lengths[i] < lengths[k])
  {
    hide Matches, Best, Agrees;
    hide HasLength;
    k := BestIsSelected(t, dst);
    forall i | 0 <= i < |t|
      ensures Matches(t[i], dst) <==> Agrees(littleEndian, t[i], dst, lengths[i])
    {
      MatchIsPrefixMatch(littleEndian, t[i], dst, lengths[i]);
    }
    if Best(t, dst).Some? {
      SelectedIsLongest(littleEndian, t, dst, k, lengths[k]);
    }
  }
}

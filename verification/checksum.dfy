/** The Internet checksum of section 1 of RFC 1071, as cksum computes it, and the header fields that
    are filled and checked with it. */
module Checksum {
  import opened Flooding
  import opened Octets

  /** The sum of the first `n` octets taken as big-endian 16-bit words. */
  function WordSum(b: seq<Byte>, n: nat): nat
    requires n <= |b| && n % 2 == 0
  {
    if n == 0 then 0 else WordSum(b, n - 2) + Join(b[n - 2], b[n - 1])
  }

  /** The one's complement sum of words that add up to `s`: congruent to it modulo 65535, and 0 only
      when all words are 0. */
  function Folded(s: nat): Half {
    if s == 0 then 0 else (s - 1) % 0xFFFF + 1
  }

  function ChecksumOf(b: seq<Byte>): Half
    requires |b| % 2 == 0
  {
    0xFFFF - Folded(WordSum(b, |b|))
  }

  /** The example of section 3 of RFC 1071. */
  lemma Rfc1071Example()
    ensures ChecksumOf([0x00, 0x01, 0xF2, 0x03, 0xF4, 0xF5, 0xF6, 0xF7]) == 0x220D
  {
    var b: seq<Byte> := [0x00, 0x01, 0xF2, 0x03, 0xF4, 0xF5, 0xF6, 0xF7];
    assert WordSum(b, 2) == 0x0001;
    assert WordSum(b, 4) == 0xF204;
    assert WordSum(b, 6) == 0x1_E6F9;
    assert WordSum(b, 8) == 0x2_DDF0;
  }

  lemma FoldStep(s: nat)
    ensures Folded(s % 0x1_0000 + s / 0x1_0000) == Folded(s)
  {
    var r := s % 0x1_0000 + s / 0x1_0000;
    assert s == r + s / 0x1_0000 * 0xFFFF;
    if s > 0 {
      SameRemainder(s - 1, r - 1, s / 0x1_0000);
    }
  }

  lemma SameRemainder(a: int, b: int, q: int)
    requires a == b + q * 0xFFFF
    ensures a % 0xFFFF == b % 0xFFFF
  {
  }

  /** The number of octets that cksum reads: one past the end of an odd length. */
  function OctetsRead(len: int): (n: nat)
    ensures n % 2 == 0 && if len <= 0 then n == 0 else len <= n <= len + 1
  {
    if len <= 0 then 0 else len + len % 2
  }

  /** cksum: adds up the words in 32 bits and folds the carries. The 16-bit loop counter wraps, and the loop
      does not end, for lengths over 65534. */
  method Cksum(buff: seq<Byte>, len: int) returns (r: Half)
    requires OctetsRead(len) <= |buff| && len <= 65534
    ensures r == ChecksumOf(buff[..OctetsRead(len)])
  {
    ghost var read := buff[..OctetsRead(len)];
    var sum: nat := 0;
    var i: Half := 0;
    while i < len
      invariant i <= |read| && i % 2 == 0
      invariant sum == WordSum(read, i) <= i / 2 * 0xFFFF
    {
      var word16: Half := Join(buff[i], buff[i + 1]);
      assert sum + word16 < 0x1_0000_0000;
      sum := sum + word16;
      i := i + 2;
    }
    while sum / 0x1_0000 != 0
      invariant Folded(sum) == Folded(WordSum(read, |read|))
      decreases sum
    {
      FoldStep(sum);
      sum := sum % 0x1_0000 + sum / 0x1_0000;
    }
    r := 0xFFFF - sum;
  }

  /** RFC 1071 pads an odd length with a zero octet. The code takes what follows in memory, which gives the same
      checksum only if it is zero. */
  lemma OddLengthNeedsZero(b: seq<Byte>, next: Byte)
    requires |b| % 2 == 1
    ensures ChecksumOf(b + [next]) == ChecksumOf(b + [0]) <==> next == 0
  {
    var n := |b| - 1;
    WordSumPrefix(b + [next], b + [0], n);
    var s := WordSum(b + [0], |b| + 1);
    assert WordSum(b + [next], |b| + 1) == s + next;
    assert s > 0 ==> (s + next - 1) % 0xFFFF == (s - 1) % 0xFFFF ==> next == 0;
  }

  lemma {:induction false} WordSumPrefix(b: seq<Byte>, c: seq<Byte>, n: nat)
    requires n <= |b| && n <= |c| && n % 2 == 0 && b[..n] == c[..n]
    ensures WordSum(b, n) == WordSum(c, n)
  {
    if n > 0 {
      assert b[n - 2] == b[..n][n - 2] && b[n - 1] == b[..n][n - 1];
      assert b[..n - 2] == b[..n][..n - 2] && c[..n - 2] == c[..n][..n - 2];
      WordSumPrefix(b, c, n - 2);
    }
  }

  /** Replacing the octets of one aligned word changes the sum by the difference. */
  lemma {:induction false} WordSumUpdate(b: seq<Byte>, c: seq<Byte>, k: nat, n: nat)
    requires |b| == |c| && n <= |b| && n % 2 == 0 && k % 2 == 0 && k + 1 < |b|
    requires forall i | 0 <= i < |b| && i != k && i != k + 1 :: b[i] == c[i]
    ensures WordSum(c, n) - WordSum(b, n) ==
            if k < n then Join(c[k], c[k + 1]) - Join(b[k], b[k + 1]) else 0
  {
    if n > 0 {
      WordSumUpdate(b, c, k, n - 2);
    }
  }

  /** The checksum of a header with its field zeroed, stored in that field, makes the checksum over the
      whole header 0. */
  lemma FilledChecksumIsValid(b: seq<Byte>, k: nat)
    requires |b| % 2 == 0 && k % 2 == 0 && k + 1 < |b|
    ensures ChecksumOf(Stored(b, k, ChecksumOf(Stored(b, k, 0)))) == 0
  {
    var z := Stored(b, k, 0);
    var c := ChecksumOf(z);
    var f := Stored(b, k, c);
    WordSumUpdate(z, f, k, |b|);
    assert WordSum(f, |b|) == WordSum(z, |b|) + c;
    FoldComplement(WordSum(z, |b|));
  }

  lemma FoldComplement(s: nat)
    ensures Folded(s + 0xFFFF - Folded(s)) == 0xFFFF
  {
    if s > 0 {
      var q := (s - 1) / 0xFFFF;
      assert s + 0xFFFF - Folded(s) - 1 == q * 0xFFFF + 0xFFFE;
      SameRemainder(q * 0xFFFF + 0xFFFE, 0xFFFE, q);
    }
  }

  /** With field value `v` the whole header checks as 0 exactly when `v` is the computed checksum, or is
      65535 where 0 was computed, unless all other words are 0. */
  lemma ValidFieldValues(b: seq<Byte>, k: nat)
    requires |b| % 2 == 0 && k % 2 == 0 && k + 1 < |b|
    requires 0 < WordSum(Stored(b, k, 0), |b|)
    ensures var v, c := Join(b[k], b[k + 1]), ChecksumOf(Stored(b, k, 0));
            ChecksumOf(b) == 0 <==> v == c || (v == 0xFFFF && c == 0)
  {
    hide Folded, WordSum;
    var v := Join(b[k], b[k + 1]);
    var s := WordSum(Stored(b, k, 0), |b|);
    FieldAddsItsValue(b, k);
    JoinIsHalf(b[k], b[k + 1]);
    FoldedMeets(s, v);
  }

  lemma FieldAddsItsValue(b: seq<Byte>, k: nat)
    requires |b| % 2 == 0 && k % 2 == 0 && k + 1 < |b|
    ensures WordSum(b, |b|) == WordSum(Stored(b, k, 0), |b|) + Join(b[k], b[k + 1])
  {
    ZeroStored(b, k);
    hide WordSum, Stored, Join;
    WordSumUpdate(Stored(b, k, 0), b, k, |b|);
  }

  lemma ZeroStored(b: seq<Byte>, k: nat)
    requires k + 1 < |b|
    ensures var z := Stored(b, k, 0);
            && |z| == |b| && Join(z[k], z[k + 1]) == 0
            && forall i | 0 <= i < |b| && i != k && i != k + 1 :: z[i] == b[i]
  {
    hide Stored, Join;
    StoredIsThere(b, k, 0);
    assert HalfAt(Stored(b, k, 0), k) == 0;
  }

  lemma FoldedMeets(s: nat, v: Half)
    requires 0 < s
    ensures Folded(s + v) == 0xFFFF <==> v == 0xFFFF - Folded(s) || (v == 0xFFFF && Folded(s) == 0xFFFF)
  {
    var q, r := (s - 1) / 0xFFFF, (s - 1) % 0xFFFF;
    assert s - 1 == q * 0xFFFF + r;
    SameRemainder(s + v - 1, r + v, q);
    if r + v >= 0xFFFF {
      SameRemainder(r + v, r + v - 0xFFFF, 1);
    }
  }

  // ---- the IP header ----

  const IP_HDR_LEN: nat := 20
  const IP_TTL: nat := 8
  const IP_SUM: nat := 10

  /** update_ip_hdr: takes one off the 8-bit time to live and fills in the checksum. */
  method UpdateIpHdr(h: array<Byte>, littleEndian: bool)
    requires h.Length == IP_HDR_LEN
    modifies h
    ensures h[8] == if old(h[8]) == 0 then 255 else old(h[8]) - 1
    ensures forall i | 0 <= i < h.Length && i !in {8, 10, 11} :: h[i] == old(h[i])
    ensures ChecksumOf(h[..]) == 0
  {
    h[IP_TTL] := Dec8(h[IP_TTL]);
    ghost var b := h[..];
    PutShort(h, IP_SUM, 0, littleEndian);
    assert h[..][..OctetsRead(IP_HDR_LEN)] == h[..];
    var c := Cksum(h[..], IP_HDR_LEN);
    PutShort(h, IP_SUM, c, littleEndian);
    FilledChecksumIsValid(b, IP_SUM);
    assert h[..] == Stored(b, IP_SUM, ChecksumOf(Stored(b, IP_SUM, 0)));
  }

  // ---- the PWOSPF header ----

  const OSPF_V2: Byte := 2
  const OSPF_SUMMED: nat := 16  // the header without its 8 octets of authentication data
  const OSPF_CSUM: nat := 12

  /** What every sender does: zeroes the field and fills in the checksum of the first 16 octets. */
  method FillPwospfChecksum(h: array<Byte>, littleEndian: bool)
    requires OSPF_SUMMED <= h.Length
    modifies h
    ensures h[..OSPF_SUMMED] == Stored(old(h[..OSPF_SUMMED]), OSPF_CSUM,
              ChecksumOf(Stored(old(h[..OSPF_SUMMED]), OSPF_CSUM, 0)))
    ensures h[OSPF_SUMMED..] == old(h[OSPF_SUMMED..])
  {
    PutShort(h, OSPF_CSUM, 0, littleEndian);
    assert h[..OSPF_SUMMED] == Stored(old(h[..OSPF_SUMMED]), OSPF_CSUM, 0);
    assert h[..][..OctetsRead(OSPF_SUMMED)] == h[..OSPF_SUMMED];
    var c := Cksum(h[..], OSPF_SUMMED);
    PutShort(h, OSPF_CSUM, c, littleEndian);
  }

  predicate GateOpen(b: seq<Byte>)
    requires |b| == OSPF_SUMMED
  {
    b[0] == OSPF_V2 && Join(b[OSPF_CSUM], b[OSPF_CSUM + 1]) == ChecksumOf(Stored(b, OSPF_CSUM, 0))
  }

  /** A raw word equals a value in network order exactly when its octets are the value big-endian. */
  lemma RawComparison(littleEndian: bool, first: Byte, second: Byte, v: Half)
    ensures Htons(littleEndian, v) == (if littleEndian then Join(second, first) else Join(first, second))
            <==> Join(first, second) == v
  {
    JoinSplits(first, second, 0x100);
    JoinSplits(second, first, 0x100);
  }

  /** The version and checksum checks of handle_pwospf, which leave the field zeroed. The checksums are
      compared as raw words in host order. */
  method CheckPwospf(h: array<Byte>, littleEndian: bool) returns (accept: bool)
    requires OSPF_SUMMED <= h.Length
    modifies h
    ensures accept == GateOpen(old(h[..OSPF_SUMMED]))
    ensures accept ==> h[..OSPF_SUMMED] == Stored(old(h[..OSPF_SUMMED]), OSPF_CSUM, 0)
  {
    if h[0] != OSPF_V2 {
      return false;
    }
    var old0, old1 := h[OSPF_CSUM], h[OSPF_CSUM + 1];
    var oldCsum := if littleEndian then Join(old1, old0) else Join(old0, old1);
    PutShort(h, OSPF_CSUM, 0, littleEndian);
    assert h[..OSPF_SUMMED] == Stored(old(h[..OSPF_SUMMED]), OSPF_CSUM, 0);
    assert h[..][..OctetsRead(OSPF_SUMMED)] == h[..OSPF_SUMMED];
    hide ChecksumOf, Htons, Join;
    var c := Cksum(h[..], OSPF_SUMMED);
    RawComparison(littleEndian, old0, old1, c);
    return Htons(littleEndian, c) == oldCsum;
  }

  /** The gate accepts what a sender filled in. */
  lemma SendersPassGate(b: seq<Byte>)
    requires |b| == OSPF_SUMMED && b[0] == OSPF_V2
    ensures GateOpen(Stored(b, OSPF_CSUM, ChecksumOf(Stored(b, OSPF_CSUM, 0))))
  {
    var c := ChecksumOf(Stored(b, OSPF_CSUM, 0));
    assert Stored(Stored(b, OSPF_CSUM, c), OSPF_CSUM, 0) == Stored(b, OSPF_CSUM, 0);
  }

  /** The gate is the usual whole-header check, except that it refuses a field of all ones. */
  lemma GateIsWholeHeaderCheck(b: seq<Byte>)
    requires |b| == 16 && b[0] == 2
    ensures GateOpen(b) <==> ChecksumOf(b) == 0 && !(b[12] == 0xFF && b[13] == 0xFF)
  {
    var z := Stored(b, OSPF_CSUM, 0);
    WordSumAtLeast(z, OSPF_SUMMED);
    ValidFieldValues(b, OSPF_CSUM);
  }

  lemma {:induction false} WordSumAtLeast(b: seq<Byte>, n: nat)
    requires n <= |b| && n % 2 == 0 && 2 <= n
    ensures b[0] * 0x100 <= WordSum(b, n)
  {
    if n > 2 {
      WordSumAtLeast(b, n - 2);
    }
  }
}

/** The secure hash standard, FIPS PUB 180-1, for messages of whole octets. */
module Sha1Spec {

  /** The least number of octets whose bits no longer fit a 64-bit count. */
  const MAX_OCTETS: nat := 0x2000_0000_0000_0000

  type Block = b: seq<bv8> | |b| == 64 witness seq(64, _ => 0)

  /** The five word buffers. */
  datatype Regs = Regs(a: bv32, b: bv32, c: bv32, d: bv32, e: bv32)

  /** Section 3: the circular left shift S^n(X). */
  function S(n: nat, x: bv32): bv32
    requires n <= 32
  {
    (x << n) | (x >> (32 - n))
  }

  /** By every number of places the circular shift is a rotation to the left. */
  lemma ShiftRotates(x: bv32)
    ensures S(0, x) == x.RotateLeft(0) && S(1, x) == x.RotateLeft(1)
    ensures S(2, x) == x.RotateLeft(2) && S(3, x) == x.RotateLeft(3)
    ensures S(4, x) == x.RotateLeft(4) && S(5, x) == x.RotateLeft(5)
    ensures S(6, x) == x.RotateLeft(6) && S(7, x) == x.RotateLeft(7)
    ensures S(8, x) == x.RotateLeft(8) && S(9, x) == x.RotateLeft(9)
    ensures S(10, x) == x.RotateLeft(10) && S(11, x) == x.RotateLeft(11)
    ensures S(12, x) == x.RotateLeft(12) && S(13, x) == x.RotateLeft(13)
    ensures S(14, x) == x.RotateLeft(14) && S(15, x) == x.RotateLeft(15)
    ensures S(16, x) == x.RotateLeft(16) && S(17, x) == x.RotateLeft(17)
    ensures S(18, x) == x.RotateLeft(18) && S(19, x) == x.RotateLeft(19)
    ensures S(20, x) == x.RotateLeft(20) && S(21, x) == x.RotateLeft(21)
    ensures S(22, x) == x.RotateLeft(22) && S(23, x) == x.RotateLeft(23)
    ensures S(24, x) == x.RotateLeft(24) && S(25, x) == x.RotateLeft(25)
    ensures S(26, x) == x.RotateLeft(26) && S(27, x) == x.RotateLeft(27)
    ensures S(28, x) == x.RotateLeft(28) && S(29, x) == x.RotateLeft(29)
    ensures S(30, x) == x.RotateLeft(30) && S(31, x) == x.RotateLeft(31)
  {
  }

  // The shifts that the standard uses, bit by bit: the first `n` bits of the word are the last ones of the result, and
  // the others have moved up by `n`.

  lemma ShiftBy1(x: bv32)
    ensures S(1, x) & 0x1 == x >> 31 && S(1, x) >> 1 == x & 0x7FFFFFFF
  {
  }

  lemma ShiftBy5(x: bv32)
    ensures S(5, x) & 0x1F == x >> 27 && S(5, x) >> 5 == x & 0x7FFFFFF
  {
  }

  lemma ShiftBy30(x: bv32)
    ensures S(30, x) & 0x3FFFFFFF == x >> 2 && S(30, x) >> 30 == x & 0x3
  {
  }

  /** Section 5: the functions used. */
  function F(t: nat, b: bv32, c: bv32, d: bv32): bv32 {
    if t < 20 then (b & c) | (!b & d)
    else if t < 40 then b ^ c ^ d
    else if t < 60 then (b & c) | (b & d) | (c & d)
    else b ^ c ^ d
  }

  /** Section 6: the constants used. */
  function K(t: nat): bv32 {
    if t < 20 then 0x5A827999 else if t < 40 then 0x6ED9EBA1 else if t < 60 then 0x8F1BBCDC else 0xCA62C1D6
  }

  const H0: Regs := Regs(0x67452301, 0xEFCDAB89, 0x98BADCFE, 0x10325476, 0xC3D2E1F0)

  function WordAt(b: Block, t: nat): bv32
    requires t < 16
  {
    ((b[4 * t] as bv32) << 24) | ((b[4 * t + 1] as bv32) << 16) | ((b[4 * t + 2] as bv32) << 8) | (b[4 * t + 3] as bv32)
  }

  /** Section 7, steps a and b: the word sequence of a block. */
  function W(b: Block, t: nat): bv32 {
    if t < 16 then WordAt(b, t)
    else S(1, W(b, t - 3) ^ W(b, t - 8) ^ W(b, t - 14) ^ W(b, t - 16))
  }

  /** Addition modulo 2^32 of the five terms of a round. */
  function Sum(x: bv32, f: bv32, e: bv32, w: bv32, k: bv32): bv32 {
    x + f + e + w + k
  }

  /** Section 7, step d: one round. */
  function Round(r: Regs, w: bv32, t: nat): Regs {
    Regs(Sum(S(5, r.a), F(t, r.b, r.c, r.d), r.e, w, K(t)), r.a, S(30, r.b), r.c, r.d)
  }

  /** The buffers after `t` rounds. */
  function Rounds(h: Regs, b: Block, t: nat): Regs {
    if t == 0 then h else Round(Rounds(h, b, t - 1), W(b, t - 1), t - 1)
  }

  /** Addition modulo 2^32. */
  function Plus(x: bv32, y: bv32): bv32 {
    x + y
  }

  function AddRegs(x: Regs, y: Regs): Regs {
    Regs(Plus(x.a, y.a), Plus(x.b, y.b), Plus(x.c, y.c), Plus(x.d, y.d), Plus(x.e, y.e))
  }

  /** Section 7: what processing one block does to the hash. */
  function Process(h: Regs, b: Block): Regs {
    AddRegs(h, Rounds(h, b, 80))
  }

  /** The hash after all blocks of a message of whole blocks. */
  function HashBlocks(m: seq<bv8>): Regs
    requires |m| % 64 == 0
  {
    if |m| == 0 then H0
    else Process(HashBlocks(m[..|m| - 64]), m[|m| - 64..])
  }

  /** The two-word big-endian form of a number below 2^64. */
  function LengthOctets(n: nat): (r: seq<bv8>)
    requires n < 0x1_0000_0000_0000_0000
    ensures |r| == 8
  {
    seq(8, i requires 0 <= i < 8 => Octet(n, 7 - i))
  }

  /** The least significant octet of a number. */
  function LowOctet(n: nat): bv8 {
    AsOctet(n % 256)
  }

  function AsOctet(k: nat): bv8
    requires k < 256
  {
    k as bv8
  }

  /** Octet `i` of a number, counting from the least significant. */
  function Octet(n: nat, i: nat): bv8
    decreases i
  {
    if i == 0 then LowOctet(n) else Octet(n / 256, i - 1)
  }

  /** The number of zero octets of the padding: the least that leaves room for exactly the length. */
  function ZeroOctets(n: nat): nat {
    (55 - n) % 64
  }

  lemma PaddingIsLeast(n: nat, k: nat)
    requires (n + 1 + k + 8) % 64 == 0
    ensures (n + 1 + ZeroOctets(n) + 8) % 64 == 0 && ZeroOctets(n) <= k
  {
  }

  /** Section 4: message padding. */
  function Pad(m: seq<bv8>): (r: seq<bv8>)
    requires |m| < MAX_OCTETS
    ensures |r| % 64 == 0
  {
    m + [0x80] + seq(ZeroOctets(|m|), _ => 0) + LengthOctets(8 * |m|)
  }

  function Digest(m: seq<bv8>): Regs
    requires |m| < MAX_OCTETS
  {
    HashBlocks(Pad(m))
  }

  lemma OneMoreBlock(m: seq<bv8>, b: Block)
    requires |m| % 64 == 0
    ensures HashBlocks(m + b) == Process(HashBlocks(m), b)
  {
    hide Process;
    assert (m + b)[..|m + b| - 64] == m;
    assert (m + b)[|m + b| - 64..] == b;
  }
}

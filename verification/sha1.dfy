/** The SHA-1 implementation: a 64-octet buffer, a 64-bit length in two words, and the rounds in place. */
module Sha1 {
  import opened Sha1Spec

  /** The shift macro of the source. */
  function CircularShift(bits: nat, word: bv32): (r: bv32)
    requires bits <= 32
    ensures r == S(bits, word)
  {
    ((word << bits) & 0xFFFF_FFFF) | (word >> (32 - bits))
  }

  class Context {
    const digest: array<bv32>
    const block: array<bv8>
    var lengthLow: nat
    var lengthHigh: nat
    var index: nat
    var computed: bool
    var corrupted: bool
    ghost var fed: seq<bv8>  // the message so far

    ghost predicate Shape() {
      digest.Length == 5 && block.Length == 64
    }

    /** Between calls: the hash covers the whole blocks fed so far, the buffer the octets after them, and
        the two length words count the bits. Once computed, the hash is the message digest. */
    ghost predicate Valid()
      reads this, digest, block
    {
      && Shape() && index < 64
      && (!corrupted && !computed ==> Buffering())
      && (!corrupted && computed ==> |fed| < MAX_OCTETS && Regs_() == Digest(fed))
    }

    ghost predicate Buffering()
      reads this, digest, block
      requires Shape() && index < 64
    {
      && |fed| < MAX_OCTETS && Counted()
      && index == |fed| % 64
      && Regs_() == HashBlocks(fed[..|fed| - index])
      && block[..index] == fed[|fed| - index..]
    }

    ghost predicate Counted()
      reads `lengthLow, `lengthHigh, `fed
    {
      lengthLow < 0x1_0000_0000 && lengthHigh < 0x1_0000_0000 && lengthHigh * 0x1_0000_0000 + lengthLow == 8 * |fed|
    }

    constructor ()
      ensures Shape() && fresh(digest) && fresh(block)
    {
      digest := new bv32[5];
      block := new bv8[64];
      lengthLow, lengthHigh, index, computed, corrupted := 0, 0, 0, false, false;
      fed := [];
    }

    ghost function Regs_(): Regs
      reads digest
      requires Shape()
    {
      Regs(digest[0], digest[1], digest[2], digest[3], digest[4])
    }

    /** Fills the word sequence W[0..80] from the message block. */
    method Schedule(w: array<bv32>)
      requires Shape() && w.Length == 80 && w != digest
      modifies w
      ensures forall t | 0 <= t < 80 :: w[t] == W(block[..], t)
    {
      hide S;
      ghost var b := block[..];
      for t := 0 to 16
        invariant forall k | 0 <= k < t :: w[k] == W(b, k)
      {
        w[t] := (block[t * 4] as bv32) << 24;
        w[t] := w[t] | ((block[t * 4 + 1] as bv32) << 16);
        w[t] := w[t] | ((block[t * 4 + 2] as bv32) << 8);
        w[t] := w[t] | (block[t * 4 + 3] as bv32);
      }
      ExtendSchedule(w, b);
    }

    /** The words that follow from the 16 of the block. */
    static method ExtendSchedule(w: array<bv32>, ghost b: Block)
      requires w.Length == 80 && forall t | 0 <= t < 16 :: w[t] == W(b, t)
      modifies w
      ensures forall t | 0 <= t < 80 :: w[t] == W(b, t)
    {
      hide S, W;
      for t := 16 to 80
        invariant forall k | 0 <= k < t :: w[k] == W(b, k)
      {
        LaterWord(b, t);
        w[t] := CircularShift(1, w[t - 3] ^ w[t - 8] ^ w[t - 14] ^ w[t - 16]);
      }
    }

    static lemma LaterWord(b: Block, t: nat)
      requires 16 <= t
      ensures W(b, t) == S(1, W(b, t - 3) ^ W(b, t - 8) ^ W(b, t - 14) ^ W(b, t - 16))
    {
      hide S;
    }

    /** Rounds 0 to 19. */
    static method Rounds0(w: array<bv32>, x: Regs, ghost h: Regs, ghost blk: Block) returns (r: Regs)
      requires w.Length == 80 && (forall t | 0 <= t < 80 :: w[t] == W(blk, t)) && x == Rounds(h, blk, 0)
      ensures r == Rounds(h, blk, 20)
    {
      hide S, Rounds, F, K, Sum;
      var a, b, c, d, e := x.a, x.b, x.c, x.d, x.e;
      for t := 0 to 20
        invariant Regs(a, b, c, d, e) == Rounds(h, blk, t)
      {
        NextRound(h, blk, t);
        FirstRange(t, b, c, d);
        var temp := Sum(CircularShift(5, a), (b & c) | (!b & d), e, w[t], 0x5A827999);
        e, d, c, b, a := d, c, CircularShift(30, b), a, temp;
      }
      r := Regs(a, b, c, d, e);
    }

    /** Rounds 20 to 39. */
    static method Rounds20(w: array<bv32>, x: Regs, ghost h: Regs, ghost blk: Block) returns (r: Regs)
      requires w.Length == 80 && (forall t | 0 <= t < 80 :: w[t] == W(blk, t)) && x == Rounds(h, blk, 20)
      ensures r == Rounds(h, blk, 40)
    {
      hide S, Rounds, F, K, Sum;
      var a, b, c, d, e := x.a, x.b, x.c, x.d, x.e;
      for t := 20 to 40
        invariant Regs(a, b, c, d, e) == Rounds(h, blk, t)
      {
        NextRound(h, blk, t);
        ParityRange(t, b, c, d);
        var temp := Sum(CircularShift(5, a), b ^ c ^ d, e, w[t], 0x6ED9EBA1);
        e, d, c, b, a := d, c, CircularShift(30, b), a, temp;
      }
      r := Regs(a, b, c, d, e);
    }

    /** Rounds 40 to 59. */
    static method Rounds40(w: array<bv32>, x: Regs, ghost h: Regs, ghost blk: Block) returns (r: Regs)
      requires w.Length == 80 && (forall t | 0 <= t < 80 :: w[t] == W(blk, t)) && x == Rounds(h, blk, 40)
      ensures r == Rounds(h, blk, 60)
    {
      hide S, Rounds, F, K, Sum;
      var a, b, c, d, e := x.a, x.b, x.c, x.d, x.e;
      for t := 40 to 60
        invariant Regs(a, b, c, d, e) == Rounds(h, blk, t)
      {
        NextRound(h, blk, t);
        ThirdRange(t, b, c, d);
        var temp := Sum(CircularShift(5, a), (b & c) | (b & d) | (c & d), e, w[t], 0x8F1BBCDC);
        e, d, c, b, a := d, c, CircularShift(30, b), a, temp;
      }
      r := Regs(a, b, c, d, e);
    }

    /** Rounds 60 to 79. */
    static method Rounds60(w: array<bv32>, x: Regs, ghost h: Regs, ghost blk: Block) returns (r: Regs)
      requires w.Length == 80 && (forall t | 0 <= t < 80 :: w[t] == W(blk, t)) && x == Rounds(h, blk, 60)
      ensures r == Rounds(h, blk, 80)
    {
      hide S, Rounds, F, K, Sum;
      var a, b, c, d, e := x.a, x.b, x.c, x.d, x.e;
      for t := 60 to 80
        invariant Regs(a, b, c, d, e) == Rounds(h, blk, t)
      {
        NextRound(h, blk, t);
        ParityRange(t, b, c, d);
        var temp := Sum(CircularShift(5, a), b ^ c ^ d, e, w[t], 0xCA62C1D6);
        e, d, c, b, a := d, c, CircularShift(30, b), a, temp;
      }
      r := Regs(a, b, c, d, e);
    }

    /** SHA1ProcessMessageBlock: brings the full block into the hash and empties the buffer. */
    method ProcessMessageBlock()
      requires Shape()
      modifies digest, `index
      ensures Regs_() == Process(old(Regs_()), block[..]) && index == 0
    {
      hide Rounds, Plus;
      ghost var h, blk := Regs_(), block[..];
      var w := new bv32[80];
      Schedule(w);
      assert block[..] == blk;
      var r := Regs(digest[0], digest[1], digest[2], digest[3], digest[4]);
      NoRounds(h, blk);
      r := Rounds0(w, r, h, blk);
      r := Rounds20(w, r, h, blk);
      r := Rounds40(w, r, h, blk);
      r := Rounds60(w, r, h, blk);
      digest[0] := Plus(digest[0], r.a);
      digest[1] := Plus(digest[1], r.b);
      digest[2] := Plus(digest[2], r.c);
      digest[3] := Plus(digest[3], r.d);
      digest[4] := Plus(digest[4], r.e);
      index := 0;
    }

    /** SHA1Reset. */
    method Reset()
      requires Shape()
      modifies this, digest
      ensures Valid() && !computed && !corrupted && fed == []
    {
      lengthLow, lengthHigh, index := 0, 0, 0;
      digest[0] := 0x67452301;
      digest[1] := 0xEFCDAB89;
      digest[2] := 0x98BADCFE;
      digest[3] := 0x10325476;
      digest[4] := 0xC3D2E1F0;
      computed, corrupted := false, false;
      fed := [];
      NoBlocks();
      hide Digest, HashBlocks, Process;
      assert fed[..|fed| - index] == [];
    }

    static lemma NoBlocks()
      ensures HashBlocks([]) == H0
    {
    }

    /** Adds 8 to the bit count in its two words; it wraps exactly when the message is too long. */
    method CountOctet(x: bv8)
      requires Counted() && |fed| < MAX_OCTETS && !corrupted
      modifies `lengthLow, `lengthHigh, `corrupted, `fed
      ensures fed == old(fed) + [x]
      ensures corrupted <==> |fed| == MAX_OCTETS
      ensures !corrupted ==> Counted()
    {
      fed := fed + [x];
      lengthLow := (lengthLow + 8) % 0x1_0000_0000;
      if lengthLow == 0 {
        lengthHigh := (lengthHigh + 1) % 0x1_0000_0000;
        if lengthHigh == 0 {
          corrupted := true;
        }
      }
    }

    /** Stores one octet in the buffer, which may become full, and counts it. */
    method StoreOctet(x: bv8)
      requires Shape() && index < 64 && !corrupted && Buffering()
      modifies block, `index, `lengthLow, `lengthHigh, `corrupted, `fed
      ensures fed == old(fed) + [x] && index == old(index) + 1
      ensures corrupted <==> |fed| == MAX_OCTETS
      ensures !corrupted ==> Counted()
      ensures fed[..|fed| - index] == old(fed[..|fed| - index]) && block[..index] == fed[|fed| - index..]
    {
      hide HashBlocks, Counted;
      ghost var m, tail := fed[..|fed| - index], fed[|fed| - index..];
      assert fed == m + tail;
      block[index] := x;
      index := index + 1;
      assert block[..index] == tail + [x];
      CountOctet(x);
      assert fed == m + (tail + [x]);
    }

    static lemma NextPlace(n: nat)
      ensures (n + 1) % 64 == if n % 64 == 63 then 0 else n % 64 + 1
    {
    }

    static lemma BlockDone(m: seq<bv8>, b: Block)
      requires 64 <= |m| && |m| % 64 == 0 && b == m[|m| - 64..]
      ensures HashBlocks(m) == Process(HashBlocks(m[..|m| - 64]), b)
    {
      hide HashBlocks, Process;
      OneMoreBlock(m[..|m| - 64], b);
      assert m == m[..|m| - 64] + b;
    }

    /** Brings a full buffer into the hash. */
    method TakeBlock()
      requires Shape() && index == 64 <= |fed| && |fed| % 64 == 0
      requires Regs_() == HashBlocks(fed[..|fed| - 64]) && block[..] == fed[|fed| - 64..]
      modifies digest, `index
      ensures index == 0 && Regs_() == HashBlocks(fed)
    {
      hide HashBlocks, Process;
      BlockDone(fed, block[..]);
      ProcessMessageBlock();
    }

    /** One round of the loop of SHA1Input. */
    method AddOctet(x: bv8)
      requires Valid() && !computed && !corrupted
      modifies this, digest, block
      ensures Valid() && !computed && fed == old(fed) + [x]
      ensures corrupted <==> |fed| == MAX_OCTETS
    {
      hide HashBlocks, Process, Digest, Counted;
      NextPlace(|fed|);
      StoreOctet(x);
      if index == 64 {
        assert block[..] == block[..index];
        TakeBlock();
        assert fed[..|fed| - index] == fed;
        assert block[..index] == fed[|fed| - index..];
      }
    }

    /** SHA1Input: takes in the next octets, unless a digest was computed or the message is too long. */
    method Input(message: seq<bv8>)
      requires Valid() && |message| < 0x1_0000_0000
      modifies this, digest, block
      ensures Valid() && computed == old(computed)
      ensures message == [] ==> corrupted == old(corrupted) && fed == old(fed)
      ensures message != [] && old(computed || corrupted) ==> corrupted
      ensures message != [] && !old(computed || corrupted) ==>
                corrupted == (MAX_OCTETS <= old(|fed|) + |message|) && (!corrupted ==> fed == old(fed) + message)
    {
      if |message| == 0 {
        return;
      }
      if computed || corrupted {
        corrupted := true;
        return;
      }
      var i := 0;
      while i < |message| && !corrupted
        invariant 0 <= i <= |message| && Valid() && !computed
        invariant fed == old(fed) + message[..i]
        invariant corrupted <==> |fed| == MAX_OCTETS
        invariant |fed| <= MAX_OCTETS
      {
        AddOctet(message[i]);
        i := i + 1;
      }
    }

    /** The padding loops: zeros up to place `upto`. */
    method ZeroFill(upto: nat)
      requires Shape() && index <= upto <= 64
      modifies block, `index
      ensures index == upto
      ensures block[..upto] == old(block[..index]) + seq(upto - old(index), _ => 0)
    {
      ghost var from := index;
      while index < upto
        invariant from <= index <= upto
        invariant block[..index] == old(block[..index]) + seq(index - from, _ => 0)
      {
        block[index] := 0;
        index := index + 1;
      }
    }

    /** The marker bit and zeros up to the given place. */
    method MarkAndFill(upto: nat)
      requires Shape() && index < upto <= 64
      modifies block, `index
      ensures index == upto
      ensures block[..upto] == old(block[..index]) + [0x80] + seq(upto - 1 - old(index), _ => 0)
    {
      ghost var tail := block[..index];
      block[index] := 0x80;
      index := index + 1;
      assert block[..index] == tail + [0x80];
      ZeroFill(upto);
    }

    /** Stores the message length as the last 8 octets. */
    method StoreLength()
      requires Shape() && Counted() && |fed| < MAX_OCTETS
      modifies block
      ensures block[..56] == old(block[..56]) && block[56..] == LengthOctets(8 * |fed|)
    {
      hide LowOctet, LengthOctets;
      LengthWords(8 * |fed|, lengthHigh, lengthLow);
      block[56] := LowOctet(lengthHigh / 0x100_0000);
      block[57] := LowOctet(lengthHigh / 0x1_0000);
      block[58] := LowOctet(lengthHigh / 0x100);
      block[59] := LowOctet(lengthHigh);
      block[60] := LowOctet(lengthLow / 0x100_0000);
      block[61] := LowOctet(lengthLow / 0x1_0000);
      block[62] := LowOctet(lengthLow / 0x100);
      block[63] := LowOctet(lengthLow);
    }

    /** SHA1PadMessage: one or two more blocks, as the marker and length fit or not. */
    method PadMessage()
      requires Shape() && index < 64 && Buffering()
      modifies digest, block, `index
      ensures Regs_() == Digest(fed) && index == 0
    {
      hide HashBlocks, Process, LengthOctets, Counted;
      ghost var m, tail := fed[..|fed| - index], fed[|fed| - index..];
      assert fed == m + tail;
      if index > 55 {
        MarkAndFill(64);
        ghost var first := block[..];
        assert first == block[..64];
        OneMoreBlock(m, first);
        ProcessMessageBlock();
        ZeroFill(56);
        StoreLength();
        assert block[..] == block[..56] + block[56..];
        TwoBlocks(m, tail, first, block[..]);
        OneMoreBlock(m + first, block[..]);
      } else {
        MarkAndFill(56);
        StoreLength();
        assert block[..] == block[..56] + block[56..];
        OneBlock(m, tail, block[..]);
        OneMoreBlock(m, block[..]);
      }
      ProcessMessageBlock();
    }

    /** SHA1Result: 1 with the digest of everything fed, or 0 when corrupted; asking again is harmless. */
    method Result() returns (ok: bool)
      requires Valid()
      modifies this, digest, block
      ensures Valid() && ok == !old(corrupted) && corrupted == old(corrupted) && fed == old(fed)
      ensures ok ==> computed && |fed| < MAX_OCTETS && Regs_() == Digest(fed)
    {
      if corrupted {
        return false;
      }
      if !computed {
        PadMessage();
        computed := true;
      }
      return true;
    }
  }

  /** The padding that fits in the block begun. */
  lemma OneBlock(m: seq<bv8>, tail: seq<bv8>, b: Block)
    requires |m| % 64 == 0 && |tail| <= 55 && |m + tail| < MAX_OCTETS
    requires b == tail + [0x80] + seq(55 - |tail|, _ => 0) + LengthOctets(8 * |m + tail|)
    ensures Pad(m + tail) == m + b
  {
    hide LengthOctets;
  }

  /** The padding that runs into a further block. */
  lemma TwoBlocks(m: seq<bv8>, tail: seq<bv8>, first: Block, b: Block)
    requires |m| % 64 == 0 && 55 < |tail| < 64 && |m + tail| < MAX_OCTETS
    requires first == tail + [0x80] + seq(63 - |tail|, _ => 0)
    requires b == seq(56, _ => 0) + LengthOctets(8 * |m + tail|)
    ensures Pad(m + tail) == m + first + b
  {
    hide LengthOctets;
    assert seq(119 - |tail|, _ => 0 as bv8) == seq(63 - |tail|, _ => 0) + seq(56, _ => 0);
  }

  /** The octets of a two-word number are those of its words. */
  lemma LengthWords(n: nat, hi: nat, lo: nat)
    requires n == hi * 0x1_0000_0000 + lo && n < 0x1_0000_0000_0000_0000 && lo < 0x1_0000_0000
    ensures LengthOctets(n) ==
            [LowOctet(hi / 0x100_0000), LowOctet(hi / 0x1_0000), LowOctet(hi / 0x100), LowOctet(hi),
             LowOctet(lo / 0x100_0000), LowOctet(lo / 0x1_0000), LowOctet(lo / 0x100), LowOctet(lo)]
  {
    hide LowOctet, Octet;
    FourOctets(n);
    FourOctets(hi);
    HighOctets(n, hi, lo);
    LowWordOctets(n, hi, lo);
  }

  lemma FourOctets(n: nat)
    ensures Octet(n, 0) == LowOctet(n) && Octet(n, 1) == LowOctet(n / 0x100)
    ensures Octet(n, 2) == LowOctet(n / 0x1_0000) && Octet(n, 3) == LowOctet(n / 0x100_0000)
  {
    hide LowOctet;
    assert Octet(n, 1) == Octet(n / 0x100, 0);
    assert Octet(n, 2) == Octet(n / 0x100, 1) == Octet(n / 0x100 / 0x100, 0);
    assert Octet(n, 3) == Octet(n / 0x100, 2) == Octet(n / 0x100 / 0x100, 1) == Octet(n / 0x100 / 0x100 / 0x100, 0);
    assert n / 0x100 / 0x100 == n / 0x1_0000 && n / 0x1_0000 / 0x100 == n / 0x100_0000;
  }

  lemma DropOctet(n: nat, i: nat)
    ensures Octet(n, i + 1) == Octet(n / 0x100, i)
  {
  }

  lemma HighOctets(n: nat, hi: nat, lo: nat)
    requires n == hi * 0x1_0000_0000 + lo && lo < 0x1_0000_0000
    ensures Octet(n, 4) == Octet(hi, 0) && Octet(n, 5) == Octet(hi, 1) && Octet(n, 6) == Octet(hi, 2)
            && Octet(n, 7) == Octet(hi, 3)
  {
    hide Octet;
    FourthQuotient(n, hi, lo);
    forall i: nat | i < 4
      ensures Octet(n, i + 4) == Octet(hi, i)
    {
      DropOctet(n, i + 3);
      DropOctet(n / 0x100, i + 2);
      DropOctet(n / 0x100 / 0x100, i + 1);
      DropOctet(n / 0x100 / 0x100 / 0x100, i);
    }
    assert Octet(n, 0 + 4) == Octet(hi, 0) && Octet(n, 1 + 4) == Octet(hi, 1) && Octet(n, 2 + 4) == Octet(hi, 2)
           && Octet(n, 3 + 4) == Octet(hi, 3);
  }

  lemma FourthQuotient(n: nat, hi: nat, lo: nat)
    requires n == hi * 0x1_0000_0000 + lo && lo < 0x1_0000_0000
    ensures n / 0x100 / 0x100 / 0x100 / 0x100 == hi
  {
  }

  lemma LowWordOctets(n: nat, hi: nat, lo: nat)
    requires n == hi * 0x1_0000_0000 + lo && lo < 0x1_0000_0000
    ensures LowOctet(n) == LowOctet(lo) && LowOctet(n / 0x100) == LowOctet(lo / 0x100)
    ensures LowOctet(n / 0x1_0000) == LowOctet(lo / 0x1_0000) && LowOctet(n / 0x100_0000) == LowOctet(lo / 0x100_0000)
  {
    assert n / 0x100 == hi * 0x100_0000 + lo / 0x100;
    assert n / 0x1_0000 == hi * 0x1_0000 + lo / 0x1_0000;
    assert n / 0x100_0000 == hi * 0x100 + lo / 0x100_0000;
    SameLowOctet(n, lo, hi * 0x100_0000);
    SameLowOctet(n / 0x100, lo / 0x100, hi * 0x1_0000);
    SameLowOctet(n / 0x1_0000, lo / 0x1_0000, hi * 0x100);
    SameLowOctet(n / 0x100_0000, lo / 0x100_0000, hi);
  }

  lemma SameLowOctet(n: nat, k: nat, q: nat)
    requires n == q * 0x100 + k
    ensures LowOctet(n) == LowOctet(k)
  {
    hide AsOctet;
    assert n % 256 == k % 256;
  }

  lemma NoRounds(h: Regs, b: Block)
    ensures Rounds(h, b, 0) == h
  {
  }

  /** One round. */
  lemma NextRound(h: Regs, blk: Block, t: nat)
    ensures var r := Rounds(h, blk, t);
            Rounds(h, blk, t + 1) ==
            Regs(Sum(S(5, r.a), F(t, r.b, r.c, r.d), r.e, W(blk, t), K(t)), r.a, S(30, r.b), r.c, r.d)
  {
    hide S, W, F, K, Sum;
  }

  lemma FirstRange(t: nat, b: bv32, c: bv32, d: bv32)
    requires t < 20
    ensures F(t, b, c, d) == (b & c) | (!b & d) && K(t) == 0x5A827999
  {
  }

  lemma ParityRange(t: nat, b: bv32, c: bv32, d: bv32)
    requires 20 <= t < 40 || 60 <= t < 80
    ensures F(t, b, c, d) == b ^ c ^ d && K(t) == if t < 40 then 0x6ED9EBA1 else 0xCA62C1D6
  {
  }

  lemma ThirdRange(t: nat, b: bv32, c: bv32, d: bv32)
    requires 40 <= t < 60
    ensures F(t, b, c, d) == (b & c) | (b & d) | (c & d) && K(t) == 0x8F1BBCDC
  {
  }

  function Flatten(chunks: seq<seq<bv8>>): seq<bv8> {
    if chunks == [] then [] else Flatten(chunks[..|chunks| - 1]) + chunks[|chunks| - 1]
  }

  lemma FlattenNext(chunks: seq<seq<bv8>>, i: nat)
    requires i < |chunks|
    ensures Flatten(chunks[..i + 1]) == Flatten(chunks[..i]) + chunks[i]
  {
    assert chunks[..i + 1][..i] == chunks[..i];
  }

  /** However a message is cut into calls of SHA1Input, SHA1Result returns 1 and leaves its digest if
      it is shorter than 2^61 octets, and returns 0 if it is not. */
  method DigestOfChunks(chunks: seq<seq<bv8>>) returns (ok: bool, d: Regs)
    requires forall c | c in chunks :: |c| < 0x1_0000_0000
    ensures ok <==> |Flatten(chunks)| < MAX_OCTETS
    ensures ok ==> d == Digest(Flatten(chunks))
  {
    hide Digest, Context.Valid, Context.Buffering;
    var context := new Context();
    context.Reset();
    assert Flatten(chunks[..0]) == [];
    hide Flatten;
    for i := 0 to |chunks|
      invariant context.Valid() && !context.computed && fresh(context) && fresh(context.digest) && fresh(context.block)
      invariant context.corrupted <==> MAX_OCTETS <= |Flatten(chunks[..i])|
      invariant !context.corrupted ==> context.fed == Flatten(chunks[..i])
    {
      FlattenNext(chunks, i);
      context.Input(chunks[i]);
    }
    assert chunks[..|chunks|] == chunks;
    ok := context.Result();
    d := Regs(context.digest[0], context.digest[1], context.digest[2], context.digest[3], context.digest[4]);
  }
}

/** The digests that Appendices A and B of FIPS PUB 180-1 publish, of a message of one block and of one of two. They
    hold every constant, function and byte order of the specification to the published values. */
module Sha1Published {
  import opened Sha1Spec

  predicate Sixteen(b: Block, i: nat, w0: bv32, w1: bv32, w2: bv32, w3: bv32, w4: bv32, w5: bv32, w6: bv32, w7: bv32,
                    w8: bv32, w9: bv32, w10: bv32, w11: bv32, w12: bv32, w13: bv32, w14: bv32, w15: bv32) {
    && W(b, i) == w0 && W(b, i + 1) == w1 && W(b, i + 2) == w2 && W(b, i + 3) == w3
    && W(b, i + 4) == w4 && W(b, i + 5) == w5 && W(b, i + 6) == w6 && W(b, i + 7) == w7
    && W(b, i + 8) == w8 && W(b, i + 9) == w9 && W(b, i + 10) == w10 && W(b, i + 11) == w11
    && W(b, i + 12) == w12 && W(b, i + 13) == w13 && W(b, i + 14) == w14 && W(b, i + 15) == w15
  }

  /** The hash after the first block of the longer message. */
  const BETWEEN: Regs := Regs(0xF4286818, 0xC37B27AE, 0x0408F581, 0x84677148, 0x4A566572)

  lemma NextWord(b: Block, t: nat, w: bv32)
    requires 16 <= t && w == S(1, W(b, t - 3) ^ W(b, t - 8) ^ W(b, t - 14) ^ W(b, t - 16))
    ensures W(b, t) == w
  {
    hide S;
  }

  lemma NextState(h: Regs, b: Block, t: nat, r: Regs, w: bv32, a: bv32) returns (next: Regs)
    requires Rounds(h, b, t) == r && W(b, t) == w && Sum(S(5, r.a), F(t, r.b, r.c, r.d), r.e, w, K(t)) == a
    ensures next == Regs(a, r.a, S(30, r.b), r.c, r.d) && Rounds(h, b, t + 1) == next
  {
    hide S, F, K, Sum, W;
    next := Regs(a, r.a, S(30, r.b), r.c, r.d);
  }

  lemma NoRoundsYet(h: Regs, b: Block)
    ensures Rounds(h, b, 0) == h
  {
  }

  // ---- "abc" ----

  lemma Abc0(b: Block)
    requires Sixteen(b, 0,
              0x61626380, 0x00000000, 0x00000000, 0x00000000, 0x00000000, 0x00000000, 0x00000000, 0x00000000,
              0x00000000, 0x00000000, 0x00000000, 0x00000000, 0x00000000, 0x00000000, 0x00000000, 0x00000018)
    requires Rounds(H0, b, 0) == H0
    ensures Sixteen(b, 16,
              0xC2C4C700, 0x00000000, 0x00000030, 0x85898E01, 0x00000000, 0x00000060, 0x0B131C03, 0x00000030,
              0x85898EC1, 0x16263806, 0x00000000, 0x00000180, 0x2C4C700C, 0x000000F0, 0x93AFB507, 0x5898E048)
    ensures Rounds(H0, b, 16) == Regs(0x20BDD62F, 0x196BEE77, 0x644A3DA5, 0x1181ED99, 0x18C623F9)
  {
    hide W, Rounds, Round;
    var r := H0;
    r := NextState(H0, b, 0, r, 0x61626380, 0x0116FC33); NextWord(b, 16, 0xC2C4C700);
    r := NextState(H0, b, 1, r, 0x00000000, 0x8990536D); NextWord(b, 17, 0x00000000);
    r := NextState(H0, b, 2, r, 0x00000000, 0xA1390F08); NextWord(b, 18, 0x00000030);
    r := NextState(H0, b, 3, r, 0x00000000, 0xCDD8E11B); NextWord(b, 19, 0x85898E01);
    r := NextState(H0, b, 4, r, 0x00000000, 0xCFD499DE); NextWord(b, 20, 0x00000000);
    r := NextState(H0, b, 5, r, 0x00000000, 0x3FC7CA40); NextWord(b, 21, 0x00000060);
    r := NextState(H0, b, 6, r, 0x00000000, 0x993E30C1); NextWord(b, 22, 0x0B131C03);
    r := NextState(H0, b, 7, r, 0x00000000, 0x9E8C07D4); NextWord(b, 23, 0x00000030);
    r := NextState(H0, b, 8, r, 0x00000000, 0x4B6AE328); NextWord(b, 24, 0x85898EC1);
    r := NextState(H0, b, 9, r, 0x00000000, 0x8351F929); NextWord(b, 25, 0x16263806);
    r := NextState(H0, b, 10, r, 0x00000000, 0xFBDA9E89); NextWord(b, 26, 0x00000000);
    r := NextState(H0, b, 11, r, 0x00000000, 0x63188FE4); NextWord(b, 27, 0x00000180);
    r := NextState(H0, b, 12, r, 0x00000000, 0x4607B664); NextWord(b, 28, 0x2C4C700C);
    r := NextState(H0, b, 13, r, 0x00000000, 0x9128F695); NextWord(b, 29, 0x000000F0);
    r := NextState(H0, b, 14, r, 0x00000000, 0x196BEE77); NextWord(b, 30, 0x93AFB507);
    r := NextState(H0, b, 15, r, 0x00000018, 0x20BDD62F); NextWord(b, 31, 0x5898E048);
  }

  lemma Abc16(b: Block)
    requires Sixteen(b, 16,
              0xC2C4C700, 0x00000000, 0x00000030, 0x85898E01, 0x00000000, 0x00000060, 0x0B131C03, 0x00000030,
              0x85898EC1, 0x16263806, 0x00000000, 0x00000180, 0x2C4C700C, 0x000000F0, 0x93AFB507, 0x5898E048)
    requires Rounds(H0, b, 16) == Regs(0x20BDD62F, 0x196BEE77, 0x644A3DA5, 0x1181ED99, 0x18C623F9)
    ensures Sixteen(b, 32,
              0x8E9A9202, 0x00000600, 0xB131C0F0, 0x16263BC6, 0x4EBED41E, 0x626380A1, 0x16263806, 0x000018C0,
              0xD2E138C4, 0x00000F00, 0x3AFB5079, 0x898E04E5, 0xE2BA3C2B, 0x000060C0, 0x053A37CD, 0x74458547)
    ensures Rounds(H0, b, 32) == Regs(0x3B845D33, 0x1267B407, 0x717EEBD7, 0xA0DC2D4B, 0xD2AA1365)
  {
    hide W, Rounds, Round;
    var r := Regs(0x20BDD62F, 0x196BEE77, 0x644A3DA5, 0x1181ED99, 0x18C623F9);
    r := NextState(H0, b, 16, r, 0xC2C4C700, 0x4E925823); NextWord(b, 32, 0x8E9A9202);
    r := NextState(H0, b, 17, r, 0x00000000, 0x82AA6728); NextWord(b, 33, 0x00000600);
    r := NextState(H0, b, 18, r, 0x00000030, 0xDC64901D); NextWord(b, 34, 0xB131C0F0);
    r := NextState(H0, b, 19, r, 0x85898E01, 0xFD9E1D7D); NextWord(b, 35, 0x16263BC6);
    r := NextState(H0, b, 20, r, 0x00000000, 0x1A37B0CA); NextWord(b, 36, 0x4EBED41E);
    r := NextState(H0, b, 21, r, 0x00000060, 0x33A23BFC); NextWord(b, 37, 0x626380A1);
    r := NextState(H0, b, 22, r, 0x0B131C03, 0x21283486); NextWord(b, 38, 0x16263806);
    r := NextState(H0, b, 23, r, 0x00000030, 0xD541F12D); NextWord(b, 39, 0x000018C0);
    r := NextState(H0, b, 24, r, 0x85898EC1, 0xC7567DC6); NextWord(b, 40, 0xD2E138C4);
    r := NextState(H0, b, 25, r, 0x16263806, 0x48413BA4); NextWord(b, 41, 0x00000F00);
    r := NextState(H0, b, 26, r, 0x00000000, 0xBE35FBD5); NextWord(b, 42, 0x3AFB5079);
    r := NextState(H0, b, 27, r, 0x00000180, 0x4AA84D97); NextWord(b, 43, 0x898E04E5);
    r := NextState(H0, b, 28, r, 0x2C4C700C, 0x8370B52E); NextWord(b, 44, 0xE2BA3C2B);
    r := NextState(H0, b, 29, r, 0x000000F0, 0xC5FBAF5D); NextWord(b, 45, 0x000060C0);
    r := NextState(H0, b, 30, r, 0x93AFB507, 0x1267B407); NextWord(b, 46, 0x053A37CD);
    r := NextState(H0, b, 31, r, 0x5898E048, 0x3B845D33); NextWord(b, 47, 0x74458547);
  }

  lemma Abc32(b: Block)
    requires Sixteen(b, 32,
              0x8E9A9202, 0x00000600, 0xB131C0F0, 0x16263BC6, 0x4EBED41E, 0x626380A1, 0x16263806, 0x000018C0,
              0xD2E138C4, 0x00000F00, 0x3AFB5079, 0x898E04E5, 0xE2BA3C2B, 0x000060C0, 0x053A37CD, 0x74458547)
    requires Rounds(H0, b, 32) == Regs(0x3B845D33, 0x1267B407, 0x717EEBD7, 0xA0DC2D4B, 0xD2AA1365)
    ensures Sixteen(b, 48,
              0xDA9415ED, 0x26380A16, 0x626383A1, 0x4EBF54DE, 0x3835B44B, 0x0000F600, 0x1E84C7A3, 0x98E04D98,
              0x651D16A0, 0x62658CA1, 0x458544D6, 0x44584CB7, 0x7BA06619, 0x6380AEA2, 0x0AE55269, 0x627B49A1)
    ensures Rounds(H0, b, 48) == Regs(0xBEAD02CA, 0xA01B846C, 0x8714787C, 0x503CA382, 0xFB86C6AB)
  {
    hide W, Rounds, Round;
    var r := Regs(0x3B845D33, 0x1267B407, 0x717EEBD7, 0xA0DC2D4B, 0xD2AA1365);
    r := NextState(H0, b, 32, r, 0x8E9A9202, 0x046FAA0A); NextWord(b, 48, 0xDA9415ED);
    r := NextState(H0, b, 33, r, 0x00000600, 0x2C0EBC11); NextWord(b, 49, 0x26380A16);
    r := NextState(H0, b, 34, r, 0xB131C0F0, 0x21796AD4); NextWord(b, 50, 0x626383A1);
    r := NextState(H0, b, 35, r, 0x16263BC6, 0xDCBBB0CB); NextWord(b, 51, 0x4EBF54DE);
    r := NextState(H0, b, 36, r, 0x4EBED41E, 0x0F511FD8); NextWord(b, 52, 0x3835B44B);
    r := NextState(H0, b, 37, r, 0x626380A1, 0xDC63973F); NextWord(b, 53, 0x0000F600);
    r := NextState(H0, b, 38, r, 0x16263806, 0x4C986405); NextWord(b, 54, 0x1E84C7A3);
    r := NextState(H0, b, 39, r, 0x000018C0, 0x32DE1CBA); NextWord(b, 55, 0x98E04D98);
    r := NextState(H0, b, 40, r, 0xD2E138C4, 0xFC87DEDF); NextWord(b, 56, 0x651D16A0);
    r := NextState(H0, b, 41, r, 0x00000F00, 0x970A0D5C); NextWord(b, 57, 0x62658CA1);
    r := NextState(H0, b, 42, r, 0x3AFB5079, 0x7F193DC5); NextWord(b, 58, 0x458544D6);
    r := NextState(H0, b, 43, r, 0x898E04E5, 0xEE1B1AAF); NextWord(b, 59, 0x44584CB7);
    r := NextState(H0, b, 44, r, 0xE2BA3C2B, 0x40F28E09); NextWord(b, 60, 0x7BA06619);
    r := NextState(H0, b, 45, r, 0x000060C0, 0x1C51E1F2); NextWord(b, 61, 0x6380AEA2);
    r := NextState(H0, b, 46, r, 0x053A37CD, 0xA01B846C); NextWord(b, 62, 0x0AE55269);
    r := NextState(H0, b, 47, r, 0x74458547, 0xBEAD02CA); NextWord(b, 63, 0x627B49A1);
  }

  lemma Abc48(b: Block)
    requires Sixteen(b, 48,
              0xDA9415ED, 0x26380A16, 0x626383A1, 0x4EBF54DE, 0x3835B44B, 0x0000F600, 0x1E84C7A3, 0x98E04D98,
              0x651D16A0, 0x62658CA1, 0x458544D6, 0x44584CB7, 0x7BA06619, 0x6380AEA2, 0x0AE55269, 0x627B49A1)
    requires Rounds(H0, b, 48) == Regs(0xBEAD02CA, 0xA01B846C, 0x8714787C, 0x503CA382, 0xFB86C6AB)
    ensures Sixteen(b, 64,
              0x7CD45C9D, 0x000F0000, 0xFB50753A, 0xEC6765E8, 0xBA3C2BE2, 0x0060C000, 0x3A37CD05, 0x458546F4,
              0xB8599DD6, 0x380A1A26, 0x01E02203, 0xE7CC3456, 0xE6E60B69, 0x00F60A00, 0x5795EF4F, 0x822E0879)
    ensures Rounds(H0, b, 64) == Regs(0x6B61C9E1, 0xB66C020B, 0x9523272C, 0xF5D5B051, 0x8FD4B796)
  {
    hide W, Rounds, Round;
    var r := Regs(0xBEAD02CA, 0xA01B846C, 0x8714787C, 0x503CA382, 0xFB86C6AB);
    r := NextState(H0, b, 48, r, 0xDA9415ED, 0xBAF39337); NextWord(b, 64, 0x7CD45C9D);
    r := NextState(H0, b, 49, r, 0x26380A16, 0x120731C5); NextWord(b, 65, 0x000F0000);
    r := NextState(H0, b, 50, r, 0x626383A1, 0x641DB2CE); NextWord(b, 66, 0xFB50753A);
    r := NextState(H0, b, 51, r, 0x4EBF54DE, 0x3847AD66); NextWord(b, 67, 0xEC6765E8);
    r := NextState(H0, b, 52, r, 0x3835B44B, 0xE490436D); NextWord(b, 68, 0xBA3C2BE2);
    r := NextState(H0, b, 53, r, 0x0000F600, 0x27E9F1D8); NextWord(b, 69, 0x0060C000);
    r := NextState(H0, b, 54, r, 0x1E84C7A3, 0x7B71F76D); NextWord(b, 70, 0x3A37CD05);
    r := NextState(H0, b, 55, r, 0x98E04D98, 0x5E6456AF); NextWord(b, 71, 0x458546F4);
    r := NextState(H0, b, 56, r, 0x651D16A0, 0xC846093F); NextWord(b, 72, 0xB8599DD6);
    r := NextState(H0, b, 57, r, 0x62658CA1, 0xD262FF50); NextWord(b, 73, 0x380A1A26);
    r := NextState(H0, b, 58, r, 0x458544D6, 0x09D785FD); NextWord(b, 74, 0x01E02203);
    r := NextState(H0, b, 59, r, 0x44584CB7, 0x3F52DE5A); NextWord(b, 75, 0xE7CC3456);
    r := NextState(H0, b, 60, r, 0x7BA06619, 0xD756C147); NextWord(b, 76, 0xE6E60B69);
    r := NextState(H0, b, 61, r, 0x6380AEA2, 0x548C9CB2); NextWord(b, 77, 0x00F60A00);
    r := NextState(H0, b, 62, r, 0x0AE55269, 0xB66C020B); NextWord(b, 78, 0x5795EF4F);
    r := NextState(H0, b, 63, r, 0x627B49A1, 0x6B61C9E1); NextWord(b, 79, 0x822E0879);
  }

  lemma Abc64(b: Block)
    requires Sixteen(b, 64,
              0x7CD45C9D, 0x000F0000, 0xFB50753A, 0xEC6765E8, 0xBA3C2BE2, 0x0060C000, 0x3A37CD05, 0x458546F4,
              0xB8599DD6, 0x380A1A26, 0x01E02203, 0xE7CC3456, 0xE6E60B69, 0x00F60A00, 0x5795EF4F, 0x822E0879)
    requires Rounds(H0, b, 64) == Regs(0x6B61C9E1, 0xB66C020B, 0x9523272C, 0xF5D5B051, 0x8FD4B796)
    ensures Rounds(H0, b, 80) == Regs(0x42541B35, 0x5738D5E1, 0x21834873, 0x681E6DF6, 0xD8FDF6AD)
  {
    hide W, Rounds, Round;
    var r := Regs(0x6B61C9E1, 0xB66C020B, 0x9523272C, 0xF5D5B051, 0x8FD4B796);
    r := NextState(H0, b, 64, r, 0x7CD45C9D, 0x19DFA7AC);
    r := NextState(H0, b, 65, r, 0x000F0000, 0x101655F9);
    r := NextState(H0, b, 66, r, 0xFB50753A, 0x0C3DF2B4);
    r := NextState(H0, b, 67, r, 0xEC6765E8, 0x78DD4D2B);
    r := NextState(H0, b, 68, r, 0xBA3C2BE2, 0x497093C0);
    r := NextState(H0, b, 69, r, 0x0060C000, 0x3F2588C2);
    r := NextState(H0, b, 70, r, 0x3A37CD05, 0xC199F8C7);
    r := NextState(H0, b, 71, r, 0x458546F4, 0x39859DE7);
    r := NextState(H0, b, 72, r, 0xB8599DD6, 0xEDB42DE4);
    r := NextState(H0, b, 73, r, 0x380A1A26, 0x11793F6F);
    r := NextState(H0, b, 74, r, 0x01E02203, 0x5EE76897);
    r := NextState(H0, b, 75, r, 0xE7CC3456, 0x63F7DAB7);
    r := NextState(H0, b, 76, r, 0xE6E60B69, 0xA079B7D9);
    r := NextState(H0, b, 77, r, 0x00F60A00, 0x860D21CC);
    r := NextState(H0, b, 78, r, 0x5795EF4F, 0x5738D5E1);
    r := NextState(H0, b, 79, r, 0x822E0879, 0x42541B35);
  }

  lemma AbcBlock(b: Block)
    requires Sixteen(b, 0,
              0x61626380, 0x00000000, 0x00000000, 0x00000000, 0x00000000, 0x00000000, 0x00000000, 0x00000000,
              0x00000000, 0x00000000, 0x00000000, 0x00000000, 0x00000000, 0x00000000, 0x00000000, 0x00000018)
    ensures Process(H0, b) == Regs(0xA9993E36, 0x4706816A, 0xBA3E2571, 0x7850C26C, 0x9CD0D89D)
  {
    NoRoundsYet(H0, b);
    hide W, Rounds, Sixteen;
    Abc0(b);
    Abc16(b);
    Abc32(b);
    Abc48(b);
    Abc64(b);
  }

  // ---- the first block of the longer message ----

  lemma First0(b: Block)
    requires Sixteen(b, 0,
              0x61626364, 0x62636465, 0x63646566, 0x64656667, 0x65666768, 0x66676869, 0x6768696A, 0x68696A6B,
              0x696A6B6C, 0x6A6B6C6D, 0x6B6C6D6E, 0x6C6D6E6F, 0x6D6E6F70, 0x6E6F7071, 0x80000000, 0x00000000)
    requires Rounds(H0, b, 0) == H0
    ensures Sixteen(b, 16,
              0x0A063A3E, 0xD8DADCDF, 0xDADCDEC0, 0xC8D2B4BE, 0x6F757B5B, 0x757B5967, 0x8DA16D70, 0xDAEEFABA,
              0xFAF6CAB6, 0xA6FB675A, 0x0C604CC8, 0x604CC02C, 0x49C0E6E2, 0x2EE8CBBC, 0xCFD72EC4, 0x97E9810E)
    ensures Rounds(H0, b, 16) == Regs(0x42637E39, 0xB2E7A8BE, 0x4CBE52A1, 0xA180D207, 0xB867B2A8)
  {
    hide W, Rounds, Round;
    var r := H0;
    r := NextState(H0, b, 0, r, 0x61626364, 0x0116FC17); NextWord(b, 16, 0x0A063A3E);
    r := NextState(H0, b, 1, r, 0x62636465, 0xEBF3B452); NextWord(b, 17, 0xD8DADCDF);
    r := NextState(H0, b, 2, r, 0x63646566, 0x5109913A); NextWord(b, 18, 0xDADCDEC0);
    r := NextState(H0, b, 3, r, 0x64656667, 0x2C4F6EAC); NextWord(b, 19, 0xC8D2B4BE);
    r := NextState(H0, b, 4, r, 0x65666768, 0x33F4AE5B); NextWord(b, 20, 0x6F757B5B);
    r := NextState(H0, b, 5, r, 0x66676869, 0x96B85189); NextWord(b, 21, 0x757B5967);
    r := NextState(H0, b, 6, r, 0x6768696A, 0xDB04CB58); NextWord(b, 22, 0x8DA16D70);
    r := NextState(H0, b, 7, r, 0x68696A6B, 0x45833F0F); NextWord(b, 23, 0xDAEEFABA);
    r := NextState(H0, b, 8, r, 0x696A6B6C, 0xC565C35E); NextWord(b, 24, 0xFAF6CAB6);
    r := NextState(H0, b, 9, r, 0x6A6B6C6D, 0x6350AFDA); NextWord(b, 25, 0xA6FB675A);
    r := NextState(H0, b, 10, r, 0x6B6C6D6E, 0x8993EA77); NextWord(b, 26, 0x0C604CC8);
    r := NextState(H0, b, 11, r, 0x6C6D6E6F, 0xE19ECAA2); NextWord(b, 27, 0x604CC02C);
    r := NextState(H0, b, 12, r, 0x6D6E6F70, 0x8603481E); NextWord(b, 28, 0x49C0E6E2);
    r := NextState(H0, b, 13, r, 0x6E6F7071, 0x32F94A85); NextWord(b, 29, 0x2EE8CBBC);
    r := NextState(H0, b, 14, r, 0x80000000, 0xB2E7A8BE); NextWord(b, 30, 0xCFD72EC4);
    r := NextState(H0, b, 15, r, 0x00000000, 0x42637E39); NextWord(b, 31, 0x97E9810E);
  }

  lemma First16(b: Block)
    requires Sixteen(b, 16,
              0x0A063A3E, 0xD8DADCDF, 0xDADCDEC0, 0xC8D2B4BE, 0x6F757B5B, 0x757B5967, 0x8DA16D70, 0xDAEEFABA,
              0xFAF6CAB6, 0xA6FB675A, 0x0C604CC8, 0x604CC02C, 0x49C0E6E2, 0x2EE8CBBC, 0xCFD72EC4, 0x97E9810E)
    requires Rounds(H0, b, 16) == Regs(0x42637E39, 0xB2E7A8BE, 0x4CBE52A1, 0xA180D207, 0xB867B2A8)
    ensures Sixteen(b, 32,
              0x0989CBE8, 0xF24843FE, 0x5C40D0BA, 0xA8D9CC3B, 0xB2B9666E, 0xBA7B71B7, 0x20B28A72, 0xB28AF500,
              0x8AC87842, 0x289ADDF4, 0x56D51F21, 0xD96B7FD2, 0x3868E778, 0xAB5E4848, 0x7F0E2118, 0xDE87A111)
    ensures Rounds(H0, b, 32) == Regs(0x52E31F60, 0xA9C84BEC, 0x816D15EC, 0x78448908, 0x3549A991)
  {
    hide W, Rounds, Round;
    var r := Regs(0x42637E39, 0xB2E7A8BE, 0x4CBE52A1, 0xA180D207, 0xB867B2A8);
    r := NextState(H0, b, 16, r, 0x0A063A3E, 0x6B068048); NextWord(b, 32, 0x0989CBE8);
    r := NextState(H0, b, 17, r, 0xD8DADCDF, 0x426B9C35); NextWord(b, 33, 0xF24843FE);
    r := NextState(H0, b, 18, r, 0xDADCDEC0, 0x944B1BD1); NextWord(b, 34, 0x5C40D0BA);
    r := NextState(H0, b, 19, r, 0xC8D2B4BE, 0x6C445652); NextWord(b, 35, 0xA8D9CC3B);
    r := NextState(H0, b, 20, r, 0x6F757B5B, 0x95836DA5); NextWord(b, 36, 0xB2B9666E);
    r := NextState(H0, b, 21, r, 0x757B5967, 0x09511177); NextWord(b, 37, 0xBA7B71B7);
    r := NextState(H0, b, 22, r, 0x8DA16D70, 0xE2B92DC4); NextWord(b, 38, 0x20B28A72);
    r := NextState(H0, b, 23, r, 0xDAEEFABA, 0xFD224575); NextWord(b, 39, 0xB28AF500);
    r := NextState(H0, b, 24, r, 0xFAF6CAB6, 0xEEB82D9A); NextWord(b, 40, 0x8AC87842);
    r := NextState(H0, b, 25, r, 0xA6FB675A, 0x5A142C1A); NextWord(b, 41, 0x289ADDF4);
    r := NextState(H0, b, 26, r, 0x0C604CC8, 0x2972F7C7); NextWord(b, 42, 0x56D51F21);
    r := NextState(H0, b, 27, r, 0x604CC02C, 0xD526A644); NextWord(b, 43, 0xD96B7FD2);
    r := NextState(H0, b, 28, r, 0x49C0E6E2, 0xE1122421); NextWord(b, 44, 0x3868E778);
    r := NextState(H0, b, 29, r, 0x2EE8CBBC, 0x05B457B2); NextWord(b, 45, 0xAB5E4848);
    r := NextState(H0, b, 30, r, 0xCFD72EC4, 0xA9C84BEC); NextWord(b, 46, 0x7F0E2118);
    r := NextState(H0, b, 31, r, 0x97E9810E, 0x52E31F60); NextWord(b, 47, 0xDE87A111);
  }

  lemma First32(b: Block)
    requires Sixteen(b, 32,
              0x0989CBE8, 0xF24843FE, 0x5C40D0BA, 0xA8D9CC3B, 0xB2B9666E, 0xBA7B71B7, 0x20B28A72, 0xB28AF500,
              0x8AC87842, 0x289ADDF4, 0x56D51F21, 0xD96B7FD2, 0x3868E778, 0xAB5E4848, 0x7F0E2118, 0xDE87A111)
    requires Rounds(H0, b, 32) == Regs(0x52E31F60, 0xA9C84BEC, 0x816D15EC, 0x78448908, 0x3549A991)
    ensures Sixteen(b, 48,
              0xE8BE56B0, 0x1A0AE652, 0xCD5611C8, 0x46EF29DC, 0x60D3DA6D, 0xDDF3BA6E, 0x2737F5E9, 0x4888A710,
              0xD2A1177B, 0x9999633B, 0xD6C69D03, 0xCCF6127B, 0x7C58FE6D, 0xFDD99C68, 0xF8E32074, 0xE0BA3C7D)
    ensures Rounds(H0, b, 48) == Regs(0xC8A69090, 0xA2AD4F02, 0xB1BA8907, 0x26307A99, 0x58CFA558)
  {
    hide W, Rounds, Round;
    var r := Regs(0x52E31F60, 0xA9C84BEC, 0x816D15EC, 0x78448908, 0x3549A991);
    r := NextState(H0, b, 32, r, 0x0989CBE8, 0x5AF3242C); NextWord(b, 48, 0xE8BE56B0);
    r := NextState(H0, b, 33, r, 0xF24843FE, 0x31C756A9); NextWord(b, 49, 0x1A0AE652);
    r := NextState(H0, b, 34, r, 0x5C40D0BA, 0xE9AC987C); NextWord(b, 50, 0xCD5611C8);
    r := NextState(H0, b, 35, r, 0xA8D9CC3B, 0xAB7C32EE); NextWord(b, 51, 0x46EF29DC);
    r := NextState(H0, b, 36, r, 0xB2B9666E, 0x5933FC99); NextWord(b, 52, 0x60D3DA6D);
    r := NextState(H0, b, 37, r, 0xBA7B71B7, 0x43F87AE9); NextWord(b, 53, 0xDDF3BA6E);
    r := NextState(H0, b, 38, r, 0x20B28A72, 0x24957F22); NextWord(b, 54, 0x2737F5E9);
    r := NextState(H0, b, 39, r, 0xB28AF500, 0xADEB7478); NextWord(b, 55, 0x4888A710);
    r := NextState(H0, b, 40, r, 0x8AC87842, 0xD70E5010); NextWord(b, 56, 0xD2A1177B);
    r := NextState(H0, b, 41, r, 0x289ADDF4, 0x79BCFB08); NextWord(b, 57, 0x9999633B);
    r := NextState(H0, b, 42, r, 0x56D51F21, 0xF9BCB8DE); NextWord(b, 58, 0xD6C69D03);
    r := NextState(H0, b, 43, r, 0xD96B7FD2, 0x633E9561); NextWord(b, 59, 0xCCF6127B);
    r := NextState(H0, b, 44, r, 0x3868E778, 0x98C1EA64); NextWord(b, 60, 0x7C58FE6D);
    r := NextState(H0, b, 45, r, 0xAB5E4848, 0xC6EA241E); NextWord(b, 61, 0xFDD99C68);
    r := NextState(H0, b, 46, r, 0x7F0E2118, 0xA2AD4F02); NextWord(b, 62, 0xF8E32074);
    r := NextState(H0, b, 47, r, 0xDE87A111, 0xC8A69090); NextWord(b, 63, 0xE0BA3C7D);
  }

  lemma First48(b: Block)
    requires Sixteen(b, 48,
              0xE8BE56B0, 0x1A0AE652, 0xCD5611C8, 0x46EF29DC, 0x60D3DA6D, 0xDDF3BA6E, 0x2737F5E9, 0x4888A710,
              0xD2A1177B, 0x9999633B, 0xD6C69D03, 0xCCF6127B, 0x7C58FE6D, 0xFDD99C68, 0xF8E32074, 0xE0BA3C7D)
    requires Rounds(H0, b, 48) == Regs(0xC8A69090, 0xA2AD4F02, 0xB1BA8907, 0x26307A99, 0x58CFA558)
    ensures Sixteen(b, 64,
              0x152198D6, 0x7B3F1982, 0x37F2D5B7, 0x8596323E, 0x810790D6, 0xBEA0A942, 0x11C7E1B1, 0x6158D101,
              0x5FCD77D9, 0x7F2F12E6, 0xF868CFB1, 0xD6E997E9, 0xF526B852, 0xB7578DCC, 0x55D99DF4, 0x1FF69958)
    ensures Rounds(H0, b, 64) == Regs(0x513F9CA0, 0x2BFAF7A8, 0x10203537, 0xCD8952C4, 0xE7BDDD70)
  {
    hide W, Rounds, Round;
    var r := Regs(0xC8A69090, 0xA2AD4F02, 0xB1BA8907, 0x26307A99, 0x58CFA558);
    r := NextState(H0, b, 48, r, 0xE8BE56B0, 0x88341600); NextWord(b, 64, 0x152198D6);
    r := NextState(H0, b, 49, r, 0x1A0AE652, 0x7E846F58); NextWord(b, 65, 0x7B3F1982);
    r := NextState(H0, b, 50, r, 0xCD5611C8, 0x86E358BA); NextWord(b, 66, 0x37F2D5B7);
    r := NextState(H0, b, 51, r, 0x46EF29DC, 0x8D2E76C8); NextWord(b, 67, 0x8596323E);
    r := NextState(H0, b, 52, r, 0x60D3DA6D, 0xCE892E10); NextWord(b, 68, 0x810790D6);
    r := NextState(H0, b, 53, r, 0xDDF3BA6E, 0xEDEA95B1); NextWord(b, 69, 0xBEA0A942);
    r := NextState(H0, b, 54, r, 0x2737F5E9, 0x36D1230A); NextWord(b, 70, 0x11C7E1B1);
    r := NextState(H0, b, 55, r, 0x4888A710, 0x776C3910); NextWord(b, 71, 0x6158D101);
    r := NextState(H0, b, 56, r, 0xD2A1177B, 0xA681B723); NextWord(b, 72, 0x5FCD77D9);
    r := NextState(H0, b, 57, r, 0x9999633B, 0xAC0A794F); NextWord(b, 73, 0x7F2F12E6);
    r := NextState(H0, b, 58, r, 0xD6C69D03, 0xF03D3782); NextWord(b, 74, 0xF868CFB1);
    r := NextState(H0, b, 59, r, 0xCCF6127B, 0x9EF775C3); NextWord(b, 75, 0xD6E997E9);
    r := NextState(H0, b, 60, r, 0x7C58FE6D, 0x36254B13); NextWord(b, 76, 0xF526B852);
    r := NextState(H0, b, 61, r, 0xFDD99C68, 0x4080D4DC); NextWord(b, 77, 0xB7578DCC);
    r := NextState(H0, b, 62, r, 0xF8E32074, 0x2BFAF7A8); NextWord(b, 78, 0x55D99DF4);
    r := NextState(H0, b, 63, r, 0xE0BA3C7D, 0x513F9CA0); NextWord(b, 79, 0x1FF69958);
  }

  lemma First64(b: Block)
    requires Sixteen(b, 64,
              0x152198D6, 0x7B3F1982, 0x37F2D5B7, 0x8596323E, 0x810790D6, 0xBEA0A942, 0x11C7E1B1, 0x6158D101,
              0x5FCD77D9, 0x7F2F12E6, 0xF868CFB1, 0xD6E997E9, 0xF526B852, 0xB7578DCC, 0x55D99DF4, 0x1FF69958)
    requires Rounds(H0, b, 64) == Regs(0x513F9CA0, 0x2BFAF7A8, 0x10203537, 0xCD8952C4, 0xE7BDDD70)
    ensures Rounds(H0, b, 80) == Regs(0x8CE34517, 0xD3AD7C25, 0x6B4E1883, 0x74351CD2, 0x86838382)
  {
    hide W, Rounds, Round;
    var r := Regs(0x513F9CA0, 0x2BFAF7A8, 0x10203537, 0xCD8952C4, 0xE7BDDD70);
    r := NextState(H0, b, 64, r, 0x152198D6, 0xE5895C81);
    r := NextState(H0, b, 65, r, 0x7B3F1982, 0x1037D2D5);
    r := NextState(H0, b, 66, r, 0x37F2D5B7, 0x14A82DA9);
    r := NextState(H0, b, 67, r, 0x8596323E, 0x6D17C9FD);
    r := NextState(H0, b, 68, r, 0x810790D6, 0x2C7B07BD);
    r := NextState(H0, b, 69, r, 0xBEA0A942, 0xFDF6EFFF);
    r := NextState(H0, b, 70, r, 0x11C7E1B1, 0x112B96E3);
    r := NextState(H0, b, 71, r, 0x6158D101, 0x84065712);
    r := NextState(H0, b, 72, r, 0x5FCD77D9, 0xAB89FB71);
    r := NextState(H0, b, 73, r, 0x7F2F12E6, 0xC5210E35);
    r := NextState(H0, b, 74, r, 0xF868CFB1, 0x352D9F4B);
    r := NextState(H0, b, 75, r, 0xD6E997E9, 0x1A0E0E0A);
    r := NextState(H0, b, 76, r, 0xF526B852, 0xD0D47349);
    r := NextState(H0, b, 77, r, 0xB7578DCC, 0xAD38620D);
    r := NextState(H0, b, 78, r, 0x55D99DF4, 0xD3AD7C25);
    r := NextState(H0, b, 79, r, 0x1FF69958, 0x8CE34517);
  }

  lemma FirstBlock(b: Block)
    requires Sixteen(b, 0,
              0x61626364, 0x62636465, 0x63646566, 0x64656667, 0x65666768, 0x66676869, 0x6768696A, 0x68696A6B,
              0x696A6B6C, 0x6A6B6C6D, 0x6B6C6D6E, 0x6C6D6E6F, 0x6D6E6F70, 0x6E6F7071, 0x80000000, 0x00000000)
    ensures Process(H0, b) == Regs(0xF4286818, 0xC37B27AE, 0x0408F581, 0x84677148, 0x4A566572)
  {
    NoRoundsYet(H0, b);
    hide W, Rounds, Sixteen;
    First0(b);
    First16(b);
    First32(b);
    First48(b);
    First64(b);
  }

  // ---- its second block ----

  lemma SecondSchedule(b: Block)
    requires Sixteen(b, 0,
              0x00000000, 0x00000000, 0x00000000, 0x00000000, 0x00000000, 0x00000000, 0x00000000, 0x00000000,
              0x00000000, 0x00000000, 0x00000000, 0x00000000, 0x00000000, 0x00000000, 0x00000000, 0x000001C0)
    ensures Sixteen(b, 16,
              0x00000000, 0x00000000, 0x00000380, 0x00000000, 0x00000000, 0x00000700, 0x00000000, 0x00000380,
              0x00000E00, 0x00000000, 0x00000000, 0x00001C00, 0x00000000, 0x00000D80, 0x00003800, 0x00000480)
  {
    hide W;
    NextWord(b, 16, 0x00000000);
    NextWord(b, 17, 0x00000000);
    NextWord(b, 18, 0x00000380);
    NextWord(b, 19, 0x00000000);
    NextWord(b, 20, 0x00000000);
    NextWord(b, 21, 0x00000700);
    NextWord(b, 22, 0x00000000);
    NextWord(b, 23, 0x00000380);
    NextWord(b, 24, 0x00000E00);
    NextWord(b, 25, 0x00000000);
    NextWord(b, 26, 0x00000000);
    NextWord(b, 27, 0x00001C00);
    NextWord(b, 28, 0x00000000);
    NextWord(b, 29, 0x00000D80);
    NextWord(b, 30, 0x00003800);
    NextWord(b, 31, 0x00000480);
  }

  lemma Second0(b: Block)
    requires Sixteen(b, 0,
              0x00000000, 0x00000000, 0x00000000, 0x00000000, 0x00000000, 0x00000000, 0x00000000, 0x00000000,
              0x00000000, 0x00000000, 0x00000000, 0x00000000, 0x00000000, 0x00000000, 0x00000000, 0x000001C0)
    requires Rounds(BETWEEN, b, 0) == BETWEEN
    ensures Sixteen(b, 16,
              0x00000000, 0x00000000, 0x00000380, 0x00000000, 0x00000000, 0x00000700, 0x00000000, 0x00000380,
              0x00000E00, 0x00000000, 0x00000000, 0x00001C00, 0x00000000, 0x00000D80, 0x00003800, 0x00000480)
    ensures Rounds(BETWEEN, b, 16) == Regs(0xD9772360, 0x258B0BAA, 0x2898132A, 0xFFB35EEF, 0xD0E89E4B)
  {
    hide W, Rounds, Round;
    SecondSchedule(b);
    var r := BETWEEN;
    r := NextState(BETWEEN, b, 0, r, 0x00000000, 0x2DF257E9);
    r := NextState(BETWEEN, b, 1, r, 0x00000000, 0x4D3DC58F);
    r := NextState(BETWEEN, b, 2, r, 0x00000000, 0xC352BB05);
    r := NextState(BETWEEN, b, 3, r, 0x00000000, 0xEEF743C6);
    r := NextState(BETWEEN, b, 4, r, 0x00000000, 0x41E34277);
    r := NextState(BETWEEN, b, 5, r, 0x00000000, 0x5443915C);
    r := NextState(BETWEEN, b, 6, r, 0x00000000, 0xE7FA0377);
    r := NextState(BETWEEN, b, 7, r, 0x00000000, 0xC6946813);
    r := NextState(BETWEEN, b, 8, r, 0x00000000, 0xFDDE1DE1);
    r := NextState(BETWEEN, b, 9, r, 0x00000000, 0xB8538ACA);
    r := NextState(BETWEEN, b, 10, r, 0x00000000, 0x6BA94F63);
    r := NextState(BETWEEN, b, 11, r, 0x00000000, 0x43A2792F);
    r := NextState(BETWEEN, b, 12, r, 0x00000000, 0xFECD7BBF);
    r := NextState(BETWEEN, b, 13, r, 0x00000000, 0xA2604CA8);
    r := NextState(BETWEEN, b, 14, r, 0x00000000, 0x258B0BAA);
    r := NextState(BETWEEN, b, 15, r, 0x000001C0, 0xD9772360);
  }

  lemma Second16(b: Block)
    requires Sixteen(b, 16,
              0x00000000, 0x00000000, 0x00000380, 0x00000000, 0x00000000, 0x00000700, 0x00000000, 0x00000380,
              0x00000E00, 0x00000000, 0x00000000, 0x00001C00, 0x00000000, 0x00000D80, 0x00003800, 0x00000480)
    requires Rounds(BETWEEN, b, 16) == Regs(0xD9772360, 0x258B0BAA, 0x2898132A, 0xFFB35EEF, 0xD0E89E4B)
    ensures Sixteen(b, 32,
              0x00000000, 0x00007000, 0x00000E00, 0x00003600, 0x0000E000, 0x00000E00, 0x00000000, 0x0001CE00,
              0x00000000, 0x0000D800, 0x00038000, 0x00004F00, 0x00000000, 0x00070E00, 0x0000EE00, 0x00037500)
    ensures Rounds(BETWEEN, b, 32) == Regs(0x8A4AF384, 0x17986223, 0x028BEC42, 0xC90A6F97, 0xD7105B6B)
  {
    hide W, Rounds, Round;
    var r := Regs(0xD9772360, 0x258B0BAA, 0x2898132A, 0xFFB35EEF, 0xD0E89E4B);
    r := NextState(BETWEEN, b, 16, r, 0x00000000, 0x5507DB6E); NextWord(b, 32, 0x00000000);
    r := NextState(BETWEEN, b, 17, r, 0x00000000, 0xA51B58BC); NextWord(b, 33, 0x00007000);
    r := NextState(BETWEEN, b, 18, r, 0x00000380, 0xC2EB709F); NextWord(b, 34, 0x00000E00);
    r := NextState(BETWEEN, b, 19, r, 0x00000000, 0xD8992153); NextWord(b, 35, 0x00003600);
    r := NextState(BETWEEN, b, 20, r, 0x00000000, 0x37482F5F); NextWord(b, 36, 0x0000E000);
    r := NextState(BETWEEN, b, 21, r, 0x00000700, 0xEE8700BD); NextWord(b, 37, 0x00000E00);
    r := NextState(BETWEEN, b, 22, r, 0x00000000, 0x9AD594B9); NextWord(b, 38, 0x00000000);
    r := NextState(BETWEEN, b, 23, r, 0x00000380, 0x8FBAA5B9); NextWord(b, 39, 0x0001CE00);
    r := NextState(BETWEEN, b, 24, r, 0x00000E00, 0x88FB5867); NextWord(b, 40, 0x00000000);
    r := NextState(BETWEEN, b, 25, r, 0x00000000, 0xEEC50521); NextWord(b, 41, 0x0000D800);
    r := NextState(BETWEEN, b, 26, r, 0x00000000, 0x50BCE434); NextWord(b, 42, 0x00038000);
    r := NextState(BETWEEN, b, 27, r, 0x00001C00, 0x5C416DAF); NextWord(b, 43, 0x00004F00);
    r := NextState(BETWEEN, b, 28, r, 0x00000000, 0x2429BE5F); NextWord(b, 44, 0x00000000);
    r := NextState(BETWEEN, b, 29, r, 0x00000D80, 0x0A2FB108); NextWord(b, 45, 0x00070E00);
    r := NextState(BETWEEN, b, 30, r, 0x00003800, 0x17986223); NextWord(b, 46, 0x0000EE00);
    r := NextState(BETWEEN, b, 31, r, 0x00000480, 0x8A4AF384); NextWord(b, 47, 0x00037500);
  }

  lemma Second32(b: Block)
    requires Sixteen(b, 32,
              0x00000000, 0x00007000, 0x00000E00, 0x00003600, 0x0000E000, 0x00000E00, 0x00000000, 0x0001CE00,
              0x00000000, 0x0000D800, 0x00038000, 0x00004F00, 0x00000000, 0x00070E00, 0x0000EE00, 0x00037500)
    requires Rounds(BETWEEN, b, 32) == Regs(0x8A4AF384, 0x17986223, 0x028BEC42, 0xC90A6F97, 0xD7105B6B)
    ensures Sixteen(b, 48,
              0x000E0000, 0x0000E000, 0x00003600, 0x001CEE00, 0x00000000, 0x000DF000, 0x00380000, 0x0004C600,
              0x0000E000, 0x0070EE00, 0x000EE000, 0x00369E00, 0x00E00000, 0x000ED600, 0x0000E000, 0x01CEA600)
    ensures Rounds(BETWEEN, b, 48) == Regs(0x46F93B68, 0x7316056A, 0xB0F40CFA, 0xCF2BB5EB, 0x7B074F58)
  {
    hide W, Rounds, Round;
    var r := Regs(0x8A4AF384, 0x17986223, 0x028BEC42, 0xC90A6F97, 0xD7105B6B);
    r := NextState(BETWEEN, b, 32, r, 0x00000000, 0x6B629993); NextWord(b, 48, 0x000E0000);
    r := NextState(BETWEEN, b, 33, r, 0x00007000, 0xF15F04F3); NextWord(b, 49, 0x0000E000);
    r := NextState(BETWEEN, b, 34, r, 0x00000E00, 0x295CC25B); NextWord(b, 50, 0x00003600);
    r := NextState(BETWEEN, b, 35, r, 0x00003600, 0x696DA404); NextWord(b, 51, 0x001CEE00);
    r := NextState(BETWEEN, b, 36, r, 0x0000E000, 0xCEF5AE12); NextWord(b, 52, 0x00000000);
    r := NextState(BETWEEN, b, 37, r, 0x00000E00, 0x87D5B80C); NextWord(b, 53, 0x000DF000);
    r := NextState(BETWEEN, b, 38, r, 0x00000000, 0x84E2A5F2); NextWord(b, 54, 0x00380000);
    r := NextState(BETWEEN, b, 39, r, 0x0001CE00, 0x03BB6310); NextWord(b, 55, 0x0004C600);
    r := NextState(BETWEEN, b, 40, r, 0x00000000, 0xC2D8F75F); NextWord(b, 56, 0x0000E000);
    r := NextState(BETWEEN, b, 41, r, 0x0000D800, 0xBFB25768); NextWord(b, 57, 0x0070EE00);
    r := NextState(BETWEEN, b, 42, r, 0x00038000, 0x28589152); NextWord(b, 58, 0x000EE000);
    r := NextState(BETWEEN, b, 43, r, 0x00004F00, 0xEC1D3D61); NextWord(b, 59, 0x00369E00);
    r := NextState(BETWEEN, b, 44, r, 0x00000000, 0x3CAED7AF); NextWord(b, 60, 0x00E00000);
    r := NextState(BETWEEN, b, 45, r, 0x00070E00, 0xC3D033EA); NextWord(b, 61, 0x000ED600);
    r := NextState(BETWEEN, b, 46, r, 0x0000EE00, 0x7316056A); NextWord(b, 62, 0x0000E000);
    r := NextState(BETWEEN, b, 47, r, 0x00037500, 0x46F93B68); NextWord(b, 63, 0x01CEA600);
  }

  lemma Second48(b: Block)
    requires Sixteen(b, 48,
              0x000E0000, 0x0000E000, 0x00003600, 0x001CEE00, 0x00000000, 0x000DF000, 0x00380000, 0x0004C600,
              0x0000E000, 0x0070EE00, 0x000EE000, 0x00369E00, 0x00E00000, 0x000ED600, 0x0000E000, 0x01CEA600)
    requires Rounds(BETWEEN, b, 48) == Regs(0x46F93B68, 0x7316056A, 0xB0F40CFA, 0xCF2BB5EB, 0x7B074F58)
    ensures Sixteen(b, 64,
              0x00000000, 0x00D80000, 0x0380E000, 0x004F0000, 0x00000000, 0x070E0000, 0x00EE0000, 0x03751C00,
              0x0E000000, 0x00E0E000, 0x00363800, 0x1CEE9000, 0x00000000, 0x0DF09000, 0x3800E000, 0x04C77400)
    ensures Rounds(BETWEEN, b, 64) == Regs(0xD504902B, 0xF66D9BF4, 0x24D85327, 0xDEAAC406, 0xE996063D)
  {
    hide W, Rounds, Round;
    var r := Regs(0x46F93B68, 0x7316056A, 0xB0F40CFA, 0xCF2BB5EB, 0x7B074F58);
    r := NextState(BETWEEN, b, 48, r, 0x000E0000, 0xDC8E7F26); NextWord(b, 64, 0x00000000);
    r := NextState(BETWEEN, b, 49, r, 0x0000E000, 0x850D411C); NextWord(b, 65, 0x00D80000);
    r := NextState(BETWEEN, b, 50, r, 0x00003600, 0x7E4672C0); NextWord(b, 66, 0x0380E000);
    r := NextState(BETWEEN, b, 51, r, 0x001CEE00, 0x89FBD41D); NextWord(b, 67, 0x004F0000);
    r := NextState(BETWEEN, b, 52, r, 0x00000000, 0x1797E228); NextWord(b, 68, 0x00000000);
    r := NextState(BETWEEN, b, 53, r, 0x000DF000, 0x431D65BC); NextWord(b, 69, 0x070E0000);
    r := NextState(BETWEEN, b, 54, r, 0x00380000, 0x2BDBB8CB); NextWord(b, 70, 0x00EE0000);
    r := NextState(BETWEEN, b, 55, r, 0x0004C600, 0x6DA72E7F); NextWord(b, 71, 0x03751C00);
    r := NextState(BETWEEN, b, 56, r, 0x0000E000, 0xA8495A9B); NextWord(b, 72, 0x0E000000);
    r := NextState(BETWEEN, b, 57, r, 0x0070EE00, 0xE785655A); NextWord(b, 73, 0x00E0E000);
    r := NextState(BETWEEN, b, 58, r, 0x000EE000, 0x5B086C42); NextWord(b, 74, 0x00363800);
    r := NextState(BETWEEN, b, 59, r, 0x00369E00, 0xA65818F7); NextWord(b, 75, 0x1CEE9000);
    r := NextState(BETWEEN, b, 60, r, 0x00E00000, 0x7AAB101B); NextWord(b, 76, 0x00000000);
    r := NextState(BETWEEN, b, 61, r, 0x000ED600, 0x93614C9C); NextWord(b, 77, 0x0DF09000);
    r := NextState(BETWEEN, b, 62, r, 0x0000E000, 0xF66D9BF4); NextWord(b, 78, 0x3800E000);
    r := NextState(BETWEEN, b, 63, r, 0x01CEA600, 0xD504902B); NextWord(b, 79, 0x04C77400);
  }

  lemma Second64(b: Block)
    requires Sixteen(b, 64,
              0x00000000, 0x00D80000, 0x0380E000, 0x004F0000, 0x00000000, 0x070E0000, 0x00EE0000, 0x03751C00,
              0x0E000000, 0x00E0E000, 0x00363800, 0x1CEE9000, 0x00000000, 0x0DF09000, 0x3800E000, 0x04C77400)
    requires Rounds(BETWEEN, b, 64) == Regs(0xD504902B, 0xF66D9BF4, 0x24D85327, 0xDEAAC406, 0xE996063D)
    ensures Rounds(BETWEEN, b, 80) == Regs(0x906FD62C, 0x58C0AAC0, 0xB6A55520, 0x74E9B89D, 0x9AF00B7F)
  {
    hide W, Rounds, Round;
    var r := Regs(0xD504902B, 0xF66D9BF4, 0x24D85327, 0xDEAAC406, 0xE996063D);
    r := NextState(BETWEEN, b, 64, r, 0x00000000, 0x60A9DA62);
    r := NextState(BETWEEN, b, 65, r, 0x00D80000, 0x8B687819);
    r := NextState(BETWEEN, b, 66, r, 0x0380E000, 0x083E90C3);
    r := NextState(BETWEEN, b, 67, r, 0x004F0000, 0xF6226BBF);
    r := NextState(BETWEEN, b, 68, r, 0x00000000, 0x76C0563B);
    r := NextState(BETWEEN, b, 69, r, 0x070E0000, 0x989DD165);
    r := NextState(BETWEEN, b, 70, r, 0x00EE0000, 0x8B2C7573);
    r := NextState(BETWEEN, b, 71, r, 0x03751C00, 0xAE1B8E7B);
    r := NextState(BETWEEN, b, 72, r, 0x0E000000, 0xCA1840DE);
    r := NextState(BETWEEN, b, 73, r, 0x00E0E000, 0x16F3BABB);
    r := NextState(BETWEEN, b, 74, r, 0x00363800, 0xD28D83AD);
    r := NextState(BETWEEN, b, 75, r, 0x1CEE9000, 0x6BC02DFE);
    r := NextState(BETWEEN, b, 76, r, 0x00000000, 0xD3A6E275);
    r := NextState(BETWEEN, b, 77, r, 0x0DF09000, 0xDA955482);
    r := NextState(BETWEEN, b, 78, r, 0x3800E000, 0x58C0AAC0);
    r := NextState(BETWEEN, b, 79, r, 0x04C77400, 0x906FD62C);
  }

  lemma SecondBlock(b: Block)
    requires Sixteen(b, 0,
              0x00000000, 0x00000000, 0x00000000, 0x00000000, 0x00000000, 0x00000000, 0x00000000, 0x00000000,
              0x00000000, 0x00000000, 0x00000000, 0x00000000, 0x00000000, 0x00000000, 0x00000000, 0x000001C0)
    ensures Process(BETWEEN, b) == Regs(0x84983E44, 0x1C3BD26E, 0xBAAE4AA1, 0xF95129E5, 0xE54670F1)
  {
    NoRoundsYet(BETWEEN, b);
    hide W, Rounds, Sixteen;
    Second0(b);
    Second16(b);
    Second32(b);
    Second48(b);
    Second64(b);
  }

  // ---- the messages ----

  /** What lies where in a padded message. */
  lemma PaddedIs(m: seq<bv8>)
    requires |m| < MAX_OCTETS
    ensures var p := Pad(m);
            && |p| == |m| + 9 + ZeroOctets(|m|) && (forall i | 0 <= i < |m| :: p[i] == m[i]) && p[|m|] == 0x80
            && (forall i | |m| < i < |p| - 8 :: p[i] == 0)
            && forall i | |p| - 8 <= i < |p| :: p[i] == Octet(8 * |m|, |p| - 1 - i)
  {
    hide ZeroOctets, Octet;
  }

  lemma SmallOctets(n: nat)
    requires n < 0x1_0000
    ensures Octet(n, 0) == AsOctet(n % 256) && Octet(n, 1) == AsOctet(n / 256)
    ensures forall i | 2 <= i < 8 :: Octet(n, i) == 0
  {
    hide AsOctet;
    assert Octet(n, 1) == Octet(n / 256, 0) && n / 256 % 256 == n / 256;
    forall i | 2 <= i < 8
      ensures Octet(n, i) == 0
    {
      assert Octet(n, i) == Octet(n / 256, i - 1) == Octet(n / 256 / 256, i - 2) && n / 256 / 256 == 0;
      ZeroHasNone(i - 2);
    }
  }

  lemma ZeroHasNone(i: nat)
    ensures Octet(0, i) == 0
  {
    if i == 0 {
      assert AsOctet(0) == 0;
    } else {
      ZeroHasNone(i - 1);
    }
  }

  /** Four octets make a word. */
  lemma FourOctets(b: Block, t: nat, o0: bv8, o1: bv8, o2: bv8, o3: bv8, w: bv32)
    requires t < 16 && b[4 * t] == o0 && b[4 * t + 1] == o1 && b[4 * t + 2] == o2 && b[4 * t + 3] == o3
    requires w == ((o0 as bv32) << 24) | ((o1 as bv32) << 16) | ((o2 as bv32) << 8) | (o3 as bv32)
    ensures W(b, t) == w
  {
  }

  lemma ZeroWords(b: Block, lo: nat, hi: nat)
    requires hi <= 16 && forall i | 4 * lo <= i < 4 * hi :: b[i] == 0
    ensures forall t | lo <= t < hi :: W(b, t) == 0
  {
    hide W;
    forall t | lo <= t < hi
      ensures W(b, t) == 0
    {
      FourOctets(b, t, 0, 0, 0, 0, 0);
    }
  }

  const ABC: seq<bv8> := [0x61, 0x62, 0x63]

  lemma AbcWords(b: Block)
    requires b[0] == 0x61 && b[1] == 0x62 && b[2] == 0x63 && b[3] == 0x80 && b[63] == 24
    requires forall i | 4 <= i < 63 :: b[i] == 0
    ensures Sixteen(b, 0, 0x61626380, 0, 0, 0, 0, 0, 0, 0, 0, 0, 0, 0, 0, 0, 0, 24)
  {
    hide W;
    FourOctets(b, 0, 0x61, 0x62, 0x63, 0x80, 0x61626380);
    ZeroWords(b, 1, 15);
    FourOctets(b, 15, 0, 0, 0, 24, 24);
  }

  /** Appendix A: the digest of "abc". */
  lemma DigestOfAbc()
    ensures Digest(ABC) == Regs(0xA9993E36, 0x4706816A, 0xBA3E2571, 0x7850C26C, 0x9CD0D89D)
  {
    hide Pad, Octet, W, HashBlocks, Process, Sixteen;
    var p := Pad(ABC);
    PaddedIs(ABC);
    SmallOctets(24);
    assert |p| == 64;
    var b: Block := p;
    assert AsOctet(24) == 24 && AsOctet(0) == 0;
    AbcWords(b);
    AbcBlock(b);
    OneBlock(b);
  }

  lemma OneBlock(b: Block)
    ensures HashBlocks(b) == Process(H0, b)
  {
    hide Process;
    assert b[..|b| - 64] == [] && b[|b| - 64..] == b;
  }

  /** "abcdbcdecdefdefgefghfghighijhijkijkljklmklmnlmnomnopnopq", 56 characters. */
  const LONGER: seq<bv8> :=
    [0x61, 0x62, 0x63, 0x64, 0x62, 0x63, 0x64, 0x65, 0x63, 0x64, 0x65, 0x66, 0x64, 0x65]
    + [0x66, 0x67, 0x65, 0x66, 0x67, 0x68, 0x66, 0x67, 0x68, 0x69, 0x67, 0x68, 0x69, 0x6A]
    + [0x68, 0x69, 0x6A, 0x6B, 0x69, 0x6A, 0x6B, 0x6C, 0x6A, 0x6B, 0x6C, 0x6D, 0x6B, 0x6C]
    + [0x6D, 0x6E, 0x6C, 0x6D, 0x6E, 0x6F, 0x6D, 0x6E, 0x6F, 0x70, 0x6E, 0x6F, 0x70, 0x71]

  lemma LongerBegins(m: seq<bv8>)
    requires m == LONGER
    ensures m[0] == 0x61 && m[1] == 0x62 && m[2] == 0x63 && m[3] == 0x64 && m[4] == 0x62 && m[5] == 0x63
    ensures m[6] == 0x64 && m[7] == 0x65 && m[8] == 0x63 && m[9] == 0x64 && m[10] == 0x65 && m[11] == 0x66
    ensures m[12] == 0x64 && m[13] == 0x65 && m[14] == 0x66 && m[15] == 0x67 && m[16] == 0x65 && m[17] == 0x66
    ensures m[18] == 0x67 && m[19] == 0x68 && m[20] == 0x66 && m[21] == 0x67 && m[22] == 0x68 && m[23] == 0x69
    ensures m[24] == 0x67 && m[25] == 0x68 && m[26] == 0x69 && m[27] == 0x6A
  {
  }

  lemma LongerEnds(m: seq<bv8>)
    requires m == LONGER
    ensures m[28] == 0x68 && m[29] == 0x69 && m[30] == 0x6A && m[31] == 0x6B && m[32] == 0x69 && m[33] == 0x6A
    ensures m[34] == 0x6B && m[35] == 0x6C && m[36] == 0x6A && m[37] == 0x6B && m[38] == 0x6C && m[39] == 0x6D
    ensures m[40] == 0x6B && m[41] == 0x6C && m[42] == 0x6D && m[43] == 0x6E && m[44] == 0x6C && m[45] == 0x6D
    ensures m[46] == 0x6E && m[47] == 0x6F && m[48] == 0x6D && m[49] == 0x6E && m[50] == 0x6F && m[51] == 0x70
    ensures m[52] == 0x6E && m[53] == 0x6F && m[54] == 0x70 && m[55] == 0x71
  {
  }

  lemma FirstWords(b: Block)
    requires b[..56] == LONGER && b[56] == 0x80 && forall i | 57 <= i < 64 :: b[i] == 0
    ensures Sixteen(b, 0,
              0x61626364, 0x62636465, 0x63646566, 0x64656667, 0x65666768, 0x66676869, 0x6768696A, 0x68696A6B,
              0x696A6B6C, 0x6A6B6C6D, 0x6B6C6D6E, 0x6C6D6E6F, 0x6D6E6F70, 0x6E6F7071, 0x80000000, 0)
  {
    hide W;
    LongerBegins(b[..56]);
    LongerEnds(b[..56]);
    assert forall i | 0 <= i < 56 :: b[i] == b[..56][i];
    FourOctets(b, 0, 0x61, 0x62, 0x63, 0x64, 0x61626364);
    FourOctets(b, 1, 0x62, 0x63, 0x64, 0x65, 0x62636465);
    FourOctets(b, 2, 0x63, 0x64, 0x65, 0x66, 0x63646566);
    FourOctets(b, 3, 0x64, 0x65, 0x66, 0x67, 0x64656667);
    FourOctets(b, 4, 0x65, 0x66, 0x67, 0x68, 0x65666768);
    FourOctets(b, 5, 0x66, 0x67, 0x68, 0x69, 0x66676869);
    FourOctets(b, 6, 0x67, 0x68, 0x69, 0x6A, 0x6768696A);
    FourOctets(b, 7, 0x68, 0x69, 0x6A, 0x6B, 0x68696A6B);
    FourOctets(b, 8, 0x69, 0x6A, 0x6B, 0x6C, 0x696A6B6C);
    FourOctets(b, 9, 0x6A, 0x6B, 0x6C, 0x6D, 0x6A6B6C6D);
    FourOctets(b, 10, 0x6B, 0x6C, 0x6D, 0x6E, 0x6B6C6D6E);
    FourOctets(b, 11, 0x6C, 0x6D, 0x6E, 0x6F, 0x6C6D6E6F);
    FourOctets(b, 12, 0x6D, 0x6E, 0x6F, 0x70, 0x6D6E6F70);
    FourOctets(b, 13, 0x6E, 0x6F, 0x70, 0x71, 0x6E6F7071);
    FourOctets(b, 14, 0x80, 0, 0, 0, 0x80000000);
    FourOctets(b, 15, 0, 0, 0, 0, 0);
  }

  lemma SecondWords(b: Block)
    requires (forall i | 0 <= i < 62 :: b[i] == 0) && b[62] == 0x01 && b[63] == 0xC0
    ensures Sixteen(b, 0, 0, 0, 0, 0, 0, 0, 0, 0, 0, 0, 0, 0, 0, 0, 0, 0x000001C0)
  {
    hide W;
    ZeroWords(b, 0, 15);
    FourOctets(b, 15, 0, 0, 0x01, 0xC0, 0x000001C0);
  }

  /** Appendix B: the digest of the longer message. */
  lemma DigestOfLonger()
    ensures Digest(LONGER) == Regs(0x84983E44, 0x1C3BD26E, 0xBAAE4AA1, 0xF95129E5, 0xE54670F1)
  {
    hide Pad, Octet, W, HashBlocks, Process, Sixteen;
    var p := Pad(LONGER);
    PaddedIs(LONGER);
    SmallOctets(448);
    assert |p| == 128 && p == p[..64] + p[64..];
    var b, c: Block := p[..64], p[64..];
    assert AsOctet(1) == 1 && AsOctet(192) == 0xC0;
    assert b[..56] == LONGER;
    FirstWords(b);
    FirstBlock(b);
    SecondWords(c);
    SecondBlock(c);
    OneBlock(b);
    OneMoreBlock(b, c);
  }
}

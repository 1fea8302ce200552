/** Three routers in a ring, and an LSU that overtakes the one before it: at rest two of them hold the older one. */
module Overtaking {
  import opened Flooding
  import opened Records
  import opened Renewal

  /** Addresses 12 and 21 are the ends of the link between routers 1 and 2, and so on. */
  function Side(address: Word, id: Word, ip: Word): Iface {
    Iface("eth", address, 0xFFFF_FFFE, 5, [Neighbor(id, ip, 0)], 5)
  }

  ghost const RING: Net := Net(map[1 := [Side(12, 2, 21), Side(13, 3, 31)],
                                   2 := [Side(21, 1, 12), Side(23, 3, 32)],
                                   3 := [Side(31, 1, 13), Side(32, 2, 23)]],
                               map[12 := 1, 21 := 2, 13 := 1, 31 := 3, 23 := 2, 32 := 3], 1)

  /** What the two LSUs of router 1 advertise: a static route in the first one only. */
  const FIRST: seq<Route> := [Route(64, 255, 0, 0)]
  const SECOND: seq<Route> := []

  function Body(k: bv16): seq<Route> {
    if k == 1 then FIRST else SECOND
  }

  /** LSU `k` of router 1 with this time to live, from one address to another. */
  function Copy(k: bv16, ttl: int, src: Word, dst: Word): Lsu {
    Lsu(1, k, ttl, ttl, src, dst, Body(k))
  }

  lemma Numbers()
    ensures Number(1) == 1 && Number(2) == 2
  {
  }

  /** What router 1 sends. */
  lemma Sent(k: bv16)
    ensures Originated(RING.ifaces[1], 1, k, Body(k)) == [Copy(k, 255, 12, 21), Copy(k, 255, 13, 31)]
  {
    var p := Lsu(1, k, 255, 255, 0, 0, Body(k));
    var ifs := RING.ifaces[1];
    OneSide(ifs[0], 2, 21, p, None);
    OneSide(ifs[1], 3, 31, p, None);
    TwoSides(ifs, p, None);
  }

  lemma OneSide(f: Iface, id: Word, ip: Word, p: Lsu, from: Option<Word>)
    requires f.neighbors == [Neighbor(id, ip, 0)]
    ensures CopiesOn(f, f.neighbors, p, from) == if from == Some(ip) then [] else [p.(src := f.address, dst := ip)]
  {
    assert f.neighbors[1..] == [];
  }

  lemma TwoSides(ifs: seq<Iface>, p: Lsu, from: Option<Word>)
    requires |ifs| == 2
    ensures Copies(ifs, p, from) ==
            CopiesOn(ifs[0], ifs[0].neighbors, p, from) + CopiesOn(ifs[1], ifs[1].neighbors, p, from)
  {
    assert ifs[1..][1..] == [] && ifs[1..][0] == ifs[1];
    assert Copies([], p, from) == [];
  }

  /** What a router passes on: one copy, out of its other side. */
  lemma PassedOn(k: bv16, ttl: int, src: Word, dst: Word, r: Word, other: Word, next: Word)
    requires 1 < ttl < 256 && r in RING.ifaces
    requires var ifs := RING.ifaces[r];
             || (ifs[0].neighbors[0].ip == src && ifs[1] == Side(other, ifs[1].neighbors[0].id, next) && next != src)
             || (ifs[1].neighbors[0].ip == src && ifs[0] == Side(other, ifs[0].neighbors[0].id, next) && next != src)
    ensures Forwarded(RING.ifaces[r], Copy(k, ttl, src, dst)) == [Copy(k, ttl - 1, other, next)]
  {
    var ifs := RING.ifaces[r];
    var p := Copy(k, ttl - 1, src, dst);
    assert Dec8(ttl) == ttl - 1;
    OneSide(ifs[0], ifs[0].neighbors[0].id, ifs[0].neighbors[0].ip, p, Some(src));
    OneSide(ifs[1], ifs[1].neighbors[0].id, ifs[1].neighbors[0].ip, p, Some(src));
    TwoSides(ifs, p, Some(src));
  }

  lemma FromOneByTwo(k: bv16)
    ensures Forwarded(RING.ifaces[2], Copy(k, 255, 12, 21)) == [Copy(k, 254, 23, 32)]
  {
    PassedOn(k, 255, 12, 21, 2, 23, 32);
  }

  lemma FromOneByThree(k: bv16)
    ensures Forwarded(RING.ifaces[3], Copy(k, 255, 13, 31)) == [Copy(k, 254, 32, 23)]
  {
    PassedOn(k, 255, 13, 31, 3, 32, 23);
  }

  lemma FromThreeByTwo(k: bv16)
    ensures Forwarded(RING.ifaces[2], Copy(k, 254, 32, 23)) == [Copy(k, 253, 21, 12)]
  {
    PassedOn(k, 254, 32, 23, 2, 21, 12);
  }

  function Stored(second: bv16, third: bv16): map<Word, bv16> {
    map[1 := 0, 2 := second, 3 := third]
  }

  /** Router `r` took in LSU `k` when `sent` had been sent. */
  ghost predicate TakesIn(s: State, t: State, c: Lsu, out: Lsu, r: Word) {
    && t.stored == s.stored[r := c.seq_] && t.flight == s.flight - multiset{c} + multiset{out} && t.sent == s.sent
    && t.log == s.log + [Accepted(r, c.seq_, |s.sent|, c.advs)]
  }

  lemma Takes(s: State, t: State, c: Lsu, out: Lsu, r: Word)
    requires Addressed(RING, s, c) && RING.owner[c.dst] == r && c.rid != r && s.stored[r] != c.seq_
    requires Forwarded(RING.ifaces[r], c) == [out] && TakesIn(s, t, c, out, r)
    ensures Delivers(RING, s, t)
  {
    assert t == Deliver(RING, s, c);
  }

  lemma Drops(s: State, c: Lsu)
    requires Addressed(RING, s, c) && (c.rid == RING.owner[c.dst] || s.stored[RING.owner[c.dst]] == c.seq_)
    ensures Delivers(RING, s, s.(flight := s.flight - multiset{c}))
  {
  }

  // ---- the run ----

  const A1: Accepted := Accepted(3, 1, 1, FIRST)
  const A2: Accepted := Accepted(2, 1, 1, FIRST)
  const A3: Accepted := Accepted(2, 2, 2, SECOND)
  const A4: Accepted := Accepted(3, 2, 2, SECOND)
  const A5: Accepted := Accepted(2, 1, 2, FIRST)

  /** The copy of the first LSU that router 3 passes on to router 2 stays under way throughout. */
  const LATE: Lsu := Copy(1, 254, 32, 23)

  ghost const S0: State := State(Stored(0, 0), multiset{}, [], [])
  ghost const S1: State := State(Stored(0, 0), multiset{Copy(1, 255, 12, 21), Copy(1, 255, 13, 31)}, [FIRST], [])
  ghost const S2: State := State(Stored(0, 1), multiset{Copy(1, 255, 12, 21), LATE}, [FIRST], [A1])
  ghost const S3: State := State(Stored(1, 1), multiset{LATE, Copy(1, 254, 23, 32)}, [FIRST], [A1, A2])
  ghost const S4: State := State(Stored(1, 1), multiset{LATE}, [FIRST], [A1, A2])
  ghost const S5: State :=
    State(Stored(1, 1), multiset{LATE, Copy(2, 255, 12, 21), Copy(2, 255, 13, 31)}, [FIRST, SECOND], [A1, A2])
  ghost const S6: State :=
    State(Stored(2, 1), multiset{LATE, Copy(2, 255, 13, 31), Copy(2, 254, 23, 32)}, [FIRST, SECOND], [A1, A2, A3])
  ghost const S7: State :=
    State(Stored(2, 2), multiset{LATE, Copy(2, 254, 23, 32), Copy(2, 254, 32, 23)}, [FIRST, SECOND], [A1, A2, A3, A4])
  ghost const S8: State := State(Stored(2, 2), multiset{LATE, Copy(2, 254, 32, 23)}, [FIRST, SECOND], [A1, A2, A3, A4])
  ghost const S9: State := State(Stored(2, 2), multiset{LATE}, [FIRST, SECOND], [A1, A2, A3, A4])
  ghost const S10: State := State(Stored(1, 2), multiset{Copy(1, 253, 21, 12)}, [FIRST, SECOND], [A1, A2, A3, A4, A5])
  ghost const S11: State := State(Stored(1, 2), multiset{}, [FIRST, SECOND], [A1, A2, A3, A4, A5])

  ghost const RUN: seq<State> := [S0, S1, S2, S3, S4, S5, S6, S7, S8, S9, S10, S11]

  lemma FirstSent()
    ensures Sends(RING, S0, S1)
  {
    Numbers();
    Sent(1);
    hide Originated, Number;
    assert Send(RING, S0, FIRST) == S1;
  }

  lemma Step1()
    ensures Delivers(RING, S1, S2)
  {
    FromOneByThree(1);
    hide Forwarded;
    assert S1.flight - multiset{Copy(1, 255, 13, 31)} + multiset{LATE} == S2.flight;
    Takes(S1, S2, Copy(1, 255, 13, 31), LATE, 3);
  }

  lemma Step2()
    ensures Delivers(RING, S2, S3)
  {
    FromOneByTwo(1);
    hide Forwarded;
    assert S2.flight - multiset{Copy(1, 255, 12, 21)} + multiset{Copy(1, 254, 23, 32)} == S3.flight;
    Takes(S2, S3, Copy(1, 255, 12, 21), Copy(1, 254, 23, 32), 2);
  }

  lemma Step3()
    ensures Delivers(RING, S3, S4)
  {
    Drops(S3, Copy(1, 254, 23, 32));
    assert S3.flight - multiset{Copy(1, 254, 23, 32)} == S4.flight;
  }

  lemma SecondSent()
    ensures Sends(RING, S4, S5)
  {
    Numbers();
    Sent(2);
    hide Originated, Number;
    assert Send(RING, S4, SECOND) == S5;
  }

  lemma Step5()
    ensures Delivers(RING, S5, S6)
  {
    FromOneByTwo(2);
    hide Forwarded;
    assert S5.flight - multiset{Copy(2, 255, 12, 21)} + multiset{Copy(2, 254, 23, 32)} == S6.flight;
    Takes(S5, S6, Copy(2, 255, 12, 21), Copy(2, 254, 23, 32), 2);
  }

  lemma Step6()
    ensures Delivers(RING, S6, S7)
  {
    FromOneByThree(2);
    hide Forwarded;
    assert S6.flight - multiset{Copy(2, 255, 13, 31)} + multiset{Copy(2, 254, 32, 23)} == S7.flight;
    Takes(S6, S7, Copy(2, 255, 13, 31), Copy(2, 254, 32, 23), 3);
  }

  lemma Step7()
    ensures Delivers(RING, S7, S8)
  {
    Drops(S7, Copy(2, 254, 23, 32));
    assert S7.flight - multiset{Copy(2, 254, 23, 32)} == S8.flight;
  }

  lemma Step8()
    ensures Delivers(RING, S8, S9)
  {
    Drops(S8, Copy(2, 254, 32, 23));
    assert S8.flight - multiset{Copy(2, 254, 32, 23)} == S9.flight;
  }

  lemma Step9()
    ensures Delivers(RING, S9, S10)
  {
    FromThreeByTwo(1);
    hide Forwarded;
    assert S9.flight - multiset{LATE} + multiset{Copy(1, 253, 21, 12)} == S10.flight;
    Takes(S9, S10, LATE, Copy(1, 253, 21, 12), 2);
  }

  lemma Step10()
    ensures Delivers(RING, S10, S11)
  {
    Drops(S10, Copy(1, 253, 21, 12));
    assert S10.flight - multiset{Copy(1, 253, 21, 12)} == S11.flight;
  }

  lemma RunIsRun()
    ensures ValidNet(RING) && Run(RING, RUN)
  {
    FirstSent();
    Step1();
    Step2();
    Step3();
    SecondSent();
    Step5();
    Step6();
    Step7();
    Step8();
    Step9();
    Step10();
    hide Sends, Delivers;
    forall k | 0 <= k < |RUN| - 1
      ensures Sends(RING, RUN[k], RUN[k + 1]) || Delivers(RING, RUN[k], RUN[k + 1])
    {
      assert k in {0, 1, 2, 3, 4, 5, 6, 7, 8, 9, 10};
    }
  }

  /** A run at whose end no copy is under way, and router 2 holds the first LSU although it took in the second: what the
      first one advertised is what it took in last. */
  lemma OlderWins()
    ensures ValidNet(RING) && Run(RING, RUN)
    ensures var last := RUN[|RUN| - 1];
            && last.flight == multiset{} && last.sent == [FIRST, SECOND] && FIRST != SECOND
            && last.stored[2] == Number(1) != Number(2)
            && last.log[2] == Accepted(2, Number(2), 2, SECOND) && last.log[4] == Accepted(2, Number(1), 2, FIRST)
            && |last.log| == 5
  {
    RunIsRun();
    Numbers();
    hide Run;
    assert RUN[11] == S11 && S11.log[2] == A3 && S11.log[4] == A5;
  }
}

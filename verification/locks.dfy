/** The three mutexes of the router and the order in which its threads take them: no reachable state,
    with any number of threads, is deadlocked. */
module Locks {

  datatype Lock = Pwospf | ArpQueue | Cache

  /** What a function does to the mutexes, with branches and loops left open. */
  datatype Code =
    | Skip
    | Acquire(l: Lock)
    | Release(l: Lock)
    | Then(first: Code, second: Code)
    | Either(left: Code, right: Code)
    | Repeat(body: Code)
    | Spawn(thread: Code)

  /** A thread: the code it still has to run, and the mutexes it holds. */
  datatype Thread = Thread(todo: seq<Code>, held: set<Lock>)

  type State = seq<Thread>

  ghost predicate Free(s: State, l: Lock) {
    forall i | 0 <= i < |s| :: l !in s[i].held
  }

  /** The ways a thread can go on from its next piece of code; taking a mutex needs it to be free. */
  ghost predicate Moves(s: State, i: nat, t: Thread)
    requires i < |s|
  {
    && s[i].todo != []
    && var rest := s[i].todo[1..];
       match s[i].todo[0]
       case Skip => t == Thread(rest, s[i].held)
       case Acquire(l) => Free(s, l) && t == Thread(rest, s[i].held + {l})
       case Release(l) => t == Thread(rest, s[i].held - {l})
       case Then(a, b) => t == Thread([a, b] + rest, s[i].held)
       case Either(a, b) => t == Thread([a] + rest, s[i].held) || t == Thread([b] + rest, s[i].held)
       case Repeat(b) => t == Thread(rest, s[i].held) || t == Thread([b] + s[i].todo, s[i].held)
       case Spawn(_) => t == Thread(rest, s[i].held)
  }

  /** The thread that a step starts, if any. */
  function Started(t: Thread): seq<Thread> {
    if t.todo != [] && t.todo[0].Spawn? then [Thread([t.todo[0].thread], {})] else []
  }

  ghost predicate Next(s: State, s': State) {
    exists i: nat, t :: i < |s| && Moves(s, i, t) && s' == s[i := t] + Started(s[i])
  }

  ghost predicate CanMove(s: State, i: nat) {
    i < |s| && exists t :: Moves(s, i, t)
  }

  /** Thread `i` waits for a mutex that thread `j` holds. */
  ghost predicate WaitsFor(s: State, i: nat, j: nat) {
    && i < |s| && j < |s| && s[i].todo != [] && s[i].todo[0].Acquire? && s[i].todo[0].l in s[j].held
  }

  // ---- the discipline ----

  /** The PWOSPF mutex is taken with nothing held; the other two with at most the PWOSPF mutex held. */
  predicate MayTake(held: set<Lock>, l: Lock) {
    l !in held && if l == Pwospf then held == {} else held <= {Pwospf}
  }

  datatype Held = Bad | Holding(locks: set<Lock>)

  /** The mutexes held after running code, or Bad when it can break the discipline on some path. */
  function After(c: Code, held: set<Lock>): Held {
    match c
    case Skip => Holding(held)
    case Acquire(l) => if MayTake(held, l) then Holding(held + {l}) else Bad
    case Release(l) => if l in held then Holding(held - {l}) else Bad
    case Then(a, b) => var h := After(a, held); if h.Bad? then Bad else After(b, h.locks)
    case Either(a, b) => if After(a, held) == After(b, held) then After(a, held) else Bad
    case Repeat(b) => if After(b, held) == Holding(held) then Holding(held) else Bad
    case Spawn(t) => if After(t, {}) == Holding({}) then Holding(held) else Bad
  }

  function AfterAll(todo: seq<Code>, held: set<Lock>): Held {
    if todo == [] then Holding(held)
    else var h := After(todo[0], held); if h.Bad? then Bad else AfterAll(todo[1..], h.locks)
  }

  /** A thread that keeps the discipline and ends with nothing held. */
  ghost predicate Disciplined(t: Thread) {
    AfterAll(t.todo, t.held) == Holding({})
  }

  ghost predicate Inv(s: State) {
    && (forall i | 0 <= i < |s| :: Disciplined(s[i]))
    && (forall i, j | 0 <= i < j < |s| :: s[i].held !! s[j].held)
  }

  lemma StepKeepsDiscipline(s: State, i: nat, t: Thread)
    requires i < |s| && Moves(s, i, t) && Disciplined(s[i])
    ensures Disciplined(t) && forall x | x in Started(s[i]) :: Disciplined(x) && x.held == {}
    ensures t.held <= s[i].held || exists l :: Free(s, l) && t.held == s[i].held + {l}
  {
    var rest := s[i].todo[1..];
    match s[i].todo[0]
    case Then(a, b) =>
      assert ([a, b] + rest)[1..] == [b] + rest && ([b] + rest)[1..] == rest;
    case Either(a, b) =>
      assert ([a] + rest)[1..] == rest && ([b] + rest)[1..] == rest;
    case Repeat(b) =>
      assert ([b] + s[i].todo)[1..] == s[i].todo;
    case Spawn(c) =>
      assert AfterAll([c], {}) == AfterAll([], After(c, {}).locks);
    case _ =>
  }

  lemma NextKeepsInv(s: State, s': State)
    requires Inv(s) && Next(s, s')
    ensures Inv(s')
  {
    hide Disciplined, Moves;
    var i: nat, t :| i < |s| && Moves(s, i, t) && s' == s[i := t] + Started(s[i]);
    StepKeepsDiscipline(s, i, t);
    forall j, k | 0 <= j < k < |s'|
      ensures s'[j].held !! s'[k].held
    {
    }
  }

  /** A run from some threads that hold nothing yet. */
  ghost predicate Run(run: seq<State>) {
    && run != [] && (forall i | 0 <= i < |run[0]| :: run[0][i].held == {} && Disciplined(run[0][i]))
    && forall k | 0 <= k < |run| - 1 :: Next(run[k], run[k + 1])
  }

  lemma {:induction false} RunKeepsInv(run: seq<State>, k: nat)
    requires Run(run) && k < |run|
    ensures Inv(run[k])
  {
    hide Next, Disciplined;
    if k > 0 {
      RunKeepsInv(run, k - 1);
      NextKeepsInv(run[k - 1], run[k]);
    }
  }

  /** A thread that has code left moves, unless it waits for a mutex held by another thread. */
  lemma MovesOrWaits(s: State, i: nat)
    requires Inv(s) && i < |s| && s[i].todo != []
    ensures CanMove(s, i) || exists j: nat :: WaitsFor(s, i, j)
  {
    var rest := s[i].todo[1..];
    match s[i].todo[0]
    case Skip => assert Moves(s, i, Thread(rest, s[i].held));
    case Acquire(l) =>
      if Free(s, l) {
        assert Moves(s, i, Thread(rest, s[i].held + {l}));
      } else {
        var j :| 0 <= j < |s| && l in s[j].held;
        assert WaitsFor(s, i, j);
      }
    case Release(l) => assert Moves(s, i, Thread(rest, s[i].held - {l}));
    case Then(a, b) => assert Moves(s, i, Thread([a, b] + rest, s[i].held));
    case Either(a, b) => assert Moves(s, i, Thread([a] + rest, s[i].held));
    case Repeat(b) => assert Moves(s, i, Thread(rest, s[i].held));
    case Spawn(_) => assert Moves(s, i, Thread(rest, s[i].held));
  }

  /** The holder of a mutex has code left, and waits for nothing if the mutex is an inner one. */
  lemma HolderOf(s: State, j: nat, l: Lock)
    requires Inv(s) && j < |s| && l in s[j].held
    ensures s[j].todo != []
    ensures l != Pwospf ==> !s[j].todo[0].Acquire?
    ensures l == Pwospf && s[j].todo[0].Acquire? ==> s[j].todo[0].l != Pwospf
  {
    assert Disciplined(s[j]);
  }

  /** No circular waiting: following at most two waits from any thread that is not finished leads to a
      thread that can move. */
  lemma DeadlockFree(run: seq<State>, i: nat)
    requires Run(run) && i < |run[|run| - 1]| && run[|run| - 1][i].todo != []
    ensures var s := run[|run| - 1];
            || CanMove(s, i)
            || (exists j: nat :: WaitsFor(s, i, j) && CanMove(s, j))
            || (exists j: nat, k: nat :: WaitsFor(s, i, j) && WaitsFor(s, j, k) && CanMove(s, k))
  {
    hide Inv, CanMove, Next, Disciplined;
    var s := run[|run| - 1];
    RunKeepsInv(run, |run| - 1);
    MovesOrWaits(s, i);
    if !CanMove(s, i) {
      var j: nat :| WaitsFor(s, i, j);
      HolderOf(s, j, s[i].todo[0].l);
      MovesOrWaits(s, j);
      if !CanMove(s, j) {
        var k: nat :| WaitsFor(s, j, k);
        HolderOf(s, k, s[j].todo[0].l);
        MovesOrWaits(s, k);
      }
    }
  }

  /** A mutex is never held by two threads. */
  lemma MutualExclusion(run: seq<State>, n: nat, i: nat, j: nat)
    requires Run(run) && n < |run| && i < j < |run[n]|
    ensures run[n][i].held !! run[n][j].held
  {
    hide Next, Disciplined;
    RunKeepsInv(run, n);
  }

  // ---- the code of the router ----

  function Locked(l: Lock, body: Code): Code {
    Then(Acquire(l), Then(body, Release(l)))
  }

  function Maybe(c: Code): Code {
    Either(Skip, c)
  }

  const GET_SEQUENCE: Code := Locked(Pwospf, Skip)
  const SET_SEQUENCE: Code := Locked(Pwospf, Skip)
  const ADD_TO_TOP: Code := Locked(Pwospf, Skip)
  const CHECK_TOP_INVALID: Code := Locked(Pwospf, Skip)
  const GET_DYN_ROUTING_IF: Code := Locked(Pwospf, Skip)
  const HANDLE_HELLO: Code := Locked(Pwospf, Skip)
  const SEND_HELLO: Code := Locked(Pwospf, Skip)
  const SEARCH_CACHE: Code := Locked(Cache, Skip)
  const ADD_CACHE_ENTRY: Code := Then(SEARCH_CACHE, Maybe(Locked(Cache, Skip)))

  /** The resolver thread: one request, then rounds of looking up the address and sending either the
      packets or another request, then the clean-up. */
  const ARP_REQ_INIT: Code :=
    Then(Locked(ArpQueue, Skip),
         Then(Repeat(Then(Locked(ArpQueue, Skip), Then(SEARCH_CACHE, Locked(ArpQueue, Skip)))),
              Locked(ArpQueue, Skip)))

  const GET_MAC_ADDRESS: Code := Then(Locked(ArpQueue, Skip), Maybe(Spawn(ARP_REQ_INIT)))

  /** The loop over neighbours of send_lsu and forward_lsu. */
  const SEND_TO_NEIGHBOURS: Code := Locked(Pwospf, Repeat(Then(SEARCH_CACHE, Maybe(GET_MAC_ADDRESS))))

  const FORWARD_LSU: Code := Maybe(SEND_TO_NEIGHBOURS)

  const HANDLE_LSU: Code :=
    Then(Locked(Pwospf, Skip),
         Maybe(Then(GET_SEQUENCE, Maybe(Then(ADD_TO_TOP, Then(SET_SEQUENCE, FORWARD_LSU))))))

  const HANDLE_PWOSPF: Code := Maybe(Either(HANDLE_HELLO, HANDLE_LSU))
  const HANDLE_IP: Code := Either(HANDLE_PWOSPF, Maybe(Then(GET_DYN_ROUTING_IF, Maybe(HANDLE_PWOSPF))))
  const CREATE_ETH_HDR: Code := Maybe(Then(SEARCH_CACHE, Maybe(GET_MAC_ADDRESS)))
  const HANDLE_ARP: Code := Maybe(Then(ADD_CACHE_ENTRY, SEARCH_CACHE))
  const HANDLE_PACKET: Code := Maybe(Either(Then(HANDLE_IP, Maybe(CREATE_ETH_HDR)), HANDLE_ARP))

  /** The two threads the router starts with. */
  const PACKET_THREAD: Code := Repeat(HANDLE_PACKET)
  const PWOSPF_THREAD: Code := Repeat(Then(Repeat(SEND_HELLO), Then(CHECK_TOP_INVALID, SEND_TO_NEIGHBOURS)))

  /** Code that keeps the discipline and gives back every mutex it takes. */
  ghost predicate Keeps(c: Code, held: set<Lock>) {
    After(c, held) == Holding(held)
  }

  lemma KeepsLocked(l: Lock, body: Code, held: set<Lock>)
    requires MayTake(held, l) && Keeps(body, held + {l})
    ensures Keeps(Locked(l, body), held)
  {
    assert held + {l} - {l} == held;
    assert After(Then(body, Release(l)), held + {l}) == Holding(held);
  }

  lemma KeepsThen(a: Code, b: Code, held: set<Lock>)
    requires Keeps(a, held) && Keeps(b, held)
    ensures Keeps(Then(a, b), held)
  {
  }

  lemma KeepsEither(a: Code, b: Code, held: set<Lock>)
    requires Keeps(a, held) && Keeps(b, held)
    ensures Keeps(Either(a, b), held)
  {
  }

  lemma KeepsMaybe(a: Code, held: set<Lock>)
    requires Keeps(a, held)
    ensures Keeps(Maybe(a), held)
  {
  }

  lemma KeepsRepeat(a: Code, held: set<Lock>)
    requires Keeps(a, held)
    ensures Keeps(Repeat(a), held)
  {
  }

  lemma KeepsSpawn(t: Code, held: set<Lock>)
    requires Keeps(t, {})
    ensures Keeps(Spawn(t), held)
  {
  }

  lemma KeepsBriefly(l: Lock, held: set<Lock>)
    requires MayTake(held, l)
    ensures Keeps(Locked(l, Skip), held)
  {
    KeepsLocked(l, Skip, held);
  }

  /** The resolver thread, and the functions that may run with the PWOSPF mutex held. */
  lemma InnerFunctionsKeep(held: set<Lock>)
    requires held <= {Pwospf}
    ensures Keeps(ARP_REQ_INIT, {}) && Keeps(SEARCH_CACHE, held) && Keeps(GET_MAC_ADDRESS, held)
  {
    hide Keeps;
    KeepsBriefly(ArpQueue, {});
    KeepsBriefly(Cache, {});
    KeepsBriefly(ArpQueue, held);
    KeepsBriefly(Cache, held);
    KeepsThen(SEARCH_CACHE, Locked(ArpQueue, Skip), {});
    KeepsThen(Locked(ArpQueue, Skip), Then(SEARCH_CACHE, Locked(ArpQueue, Skip)), {});
    KeepsRepeat(Then(Locked(ArpQueue, Skip), Then(SEARCH_CACHE, Locked(ArpQueue, Skip))), {});
    KeepsThen(Repeat(Then(Locked(ArpQueue, Skip), Then(SEARCH_CACHE, Locked(ArpQueue, Skip)))),
        Locked(ArpQueue, Skip), {});
    KeepsThen(Locked(ArpQueue, Skip), ARP_REQ_INIT.second, {});
    KeepsSpawn(ARP_REQ_INIT, held);
    KeepsMaybe(Spawn(ARP_REQ_INIT), held);
    KeepsThen(Locked(ArpQueue, Skip), Maybe(Spawn(ARP_REQ_INIT)), held);
  }

  lemma SendToNeighboursKeeps()
    ensures Keeps(SEND_TO_NEIGHBOURS, {})
  {
    hide Keeps;
    InnerFunctionsKeep({Pwospf});
    KeepsMaybe(GET_MAC_ADDRESS, {Pwospf});
    KeepsThen(SEARCH_CACHE, Maybe(GET_MAC_ADDRESS), {Pwospf});
    KeepsRepeat(Then(SEARCH_CACHE, Maybe(GET_MAC_ADDRESS)), {Pwospf});
    assert {} + {Pwospf} == {Pwospf};
    KeepsLocked(Pwospf, Repeat(Then(SEARCH_CACHE, Maybe(GET_MAC_ADDRESS))), {});
  }

  lemma HandlePwospfKeeps()
    ensures Keeps(HANDLE_PWOSPF, {})
  {
    hide Keeps;
    KeepsBriefly(Pwospf, {});
    SendToNeighboursKeeps();
    KeepsMaybe(SEND_TO_NEIGHBOURS, {});
    KeepsThen(SET_SEQUENCE, FORWARD_LSU, {});
    KeepsThen(ADD_TO_TOP, Then(SET_SEQUENCE, FORWARD_LSU), {});
    KeepsMaybe(Then(ADD_TO_TOP, Then(SET_SEQUENCE, FORWARD_LSU)), {});
    KeepsThen(GET_SEQUENCE, Maybe(Then(ADD_TO_TOP, Then(SET_SEQUENCE, FORWARD_LSU))), {});
    KeepsMaybe(Then(GET_SEQUENCE, Maybe(Then(ADD_TO_TOP, Then(SET_SEQUENCE, FORWARD_LSU)))), {});
    KeepsThen(Locked(Pwospf, Skip), HANDLE_LSU.second, {});
    KeepsEither(HANDLE_HELLO, HANDLE_LSU, {});
    KeepsMaybe(Either(HANDLE_HELLO, HANDLE_LSU), {});
  }

  lemma HandlePacketKeeps()
    ensures Keeps(HANDLE_PACKET, {})
  {
    hide Keeps;
    KeepsBriefly(Pwospf, {});
    KeepsBriefly(Cache, {});
    InnerFunctionsKeep({});
    HandlePwospfKeeps();
    KeepsMaybe(HANDLE_PWOSPF, {});
    KeepsThen(GET_DYN_ROUTING_IF, Maybe(HANDLE_PWOSPF), {});
    KeepsMaybe(Then(GET_DYN_ROUTING_IF, Maybe(HANDLE_PWOSPF)), {});
    KeepsEither(HANDLE_PWOSPF, Maybe(Then(GET_DYN_ROUTING_IF, Maybe(HANDLE_PWOSPF))), {});
    KeepsMaybe(GET_MAC_ADDRESS, {});
    KeepsThen(SEARCH_CACHE, Maybe(GET_MAC_ADDRESS), {});
    KeepsMaybe(Then(SEARCH_CACHE, Maybe(GET_MAC_ADDRESS)), {});
    KeepsMaybe(CREATE_ETH_HDR, {});
    KeepsThen(HANDLE_IP, Maybe(CREATE_ETH_HDR), {});
    KeepsMaybe(Locked(Cache, Skip), {});
    KeepsThen(SEARCH_CACHE, Maybe(Locked(Cache, Skip)), {});
    KeepsThen(ADD_CACHE_ENTRY, SEARCH_CACHE, {});
    KeepsMaybe(Then(ADD_CACHE_ENTRY, SEARCH_CACHE), {});
    KeepsEither(Then(HANDLE_IP, Maybe(CREATE_ETH_HDR)), HANDLE_ARP, {});
    KeepsMaybe(Either(Then(HANDLE_IP, Maybe(CREATE_ETH_HDR)), HANDLE_ARP), {});
  }

  /** The threads of the router keep the discipline, the resolver threads they start included. */
  lemma RouterIsDisciplined()
    ensures Disciplined(Thread([PACKET_THREAD], {})) && Disciplined(Thread([PWOSPF_THREAD], {}))
  {
    hide Keeps, After;
    HandlePacketKeeps();
    KeepsRepeat(HANDLE_PACKET, {});
    KeepsBriefly(Pwospf, {});
    SendToNeighboursKeeps();
    KeepsRepeat(SEND_HELLO, {});
    KeepsThen(CHECK_TOP_INVALID, SEND_TO_NEIGHBOURS, {});
    KeepsThen(Repeat(SEND_HELLO), Then(CHECK_TOP_INVALID, SEND_TO_NEIGHBOURS), {});
    KeepsRepeat(Then(Repeat(SEND_HELLO), Then(CHECK_TOP_INVALID, SEND_TO_NEIGHBOURS)), {});
    OnePieceOfCode(PACKET_THREAD);
    OnePieceOfCode(PWOSPF_THREAD);
  }

  lemma OnePieceOfCode(c: Code)
    requires Keeps(c, {})
    ensures Disciplined(Thread([c], {}))
  {
    assert [c][1..] == [];
    assert AfterAll([], {}) == Holding({});
  }

  /** However many of its threads run, and wherever they stand, the router is not deadlocked. */
  lemma RouterDeadlockFree(run: seq<State>, i: nat)
    requires run != [] && forall k | 0 <= k < |run| - 1 :: Next(run[k], run[k + 1])
    requires forall k | 0 <= k < |run[0]| :: run[0][k] in {Thread([PACKET_THREAD], {}), Thread([PWOSPF_THREAD], {})}
    requires i < |run[|run| - 1]| && run[|run| - 1][i].todo != []
    ensures var s := run[|run| - 1];
            || CanMove(s, i)
            || (exists j: nat :: WaitsFor(s, i, j) && CanMove(s, j))
            || (exists j: nat, k: nat :: WaitsFor(s, i, j) && WaitsFor(s, j, k) && CanMove(s, k))
  {
    hide Next, Disciplined, CanMove;
    RouterIsDisciplined();
    DeadlockFree(run, i);
  }
}

/**
 The lock skeleton of the server: which mutexes each operation takes and how they nest, and why no
 number of handler threads beside the acceptor can deadlock.
 */
module Locks {
  import CS = ClientSlots
  import RT = RoomTable

  datatype Lock = ClientList | SecurityManager | Crypto(client: nat) | RoomList | RoomLock(room: nat) | Logger

  function Rank(l: Lock): nat {
    match l
    case ClientList => 0
    case SecurityManager => 1
    case Crypto(_) => 2
    case RoomList => 3
    case RoomLock(_) => 4
    case Logger => 5
  }

  /** Code as far as locks are concerned; Either and Repeat stand for any branching and looping. */
  datatype Code =
    | Skip
    | Locked(lock: Lock, body: Code)
    | Then(first: Code, second: Code)
    | Either(left: Code, right: Code)
    | Repeat(body: Code)

  /** Every lock is taken above all locks already held: the discipline, checked on the code. */
  predicate Ordered(c: Code, floor: int) {
    match c
    case Skip => true
    case Locked(l, body) => Rank(l) > floor && Ordered(body, Rank(l))
    case Then(a, b) => Ordered(a, floor) && Ordered(b, floor)
    case Either(a, b) => Ordered(a, floor) && Ordered(b, floor)
    case Repeat(body) => Ordered(body, floor)
  }

  // ---------------------------------------------------------------- the server's code

  /** A log call: nothing below the minimum level, otherwise the logger's own mutex. */
  function Log(): Code {
    Either(Skip, Locked(Logger, Skip))
  }

  function Any(codes: seq<Code>): Code {
    if codes == [] then Skip else Either(Any(codes[..|codes| - 1]), codes[|codes| - 1])
  }

  /** The code of some k < n, whichever the search finds. */
  function AnyOf(n: nat, f: nat -> Code): Code {
    Any(seq(n, k requires 0 <= k < n => f(k)))
  }

  // room_add_client and room_remove_client
  function TouchRoom(k: nat): Code {
    Then(Log(), Locked(RoomLock(k), Log()))
  }

  function AddToRoom(k: nat): Code {
    Then(Log(), Then(TouchRoom(k), Log()))
  }

  // room_manager_create_room, join_room and leave_room: search, change one room, log
  function ChangeRoom(): Code {
    Then(Locked(RoomList, Then(Log(), AnyOf(RT.MAX_ROOMS, AddToRoom))), Log())
  }

  function SendInRoom(k: nat): Code {
    Locked(RoomLock(k), Skip)
  }

  // room_manager_broadcast_to_room
  function RoomBroadcast(): Code {
    Then(Locked(RoomList, Either(Log(), AnyOf(RT.MAX_ROOMS, SendInRoom))), Log())
  }

  // room_manager_list_rooms and get_room_users
  function ReadRooms(): Code {
    Locked(RoomList, Skip)
  }

  // security_manager_add_client: replace, create, log
  function AddContext(): Code {
    Then(Log(), Then(Locked(SecurityManager, Repeat(Log())), Log()))
  }

  // init_encryption_context under the manager's mutex
  function InitContext(c: nat): Code {
    Locked(SecurityManager, Then(Either(Skip, Locked(Crypto(c), Skip)), Log()))
  }

  // the body of the slot loop of client_manager_add_new_client; a failed context ends it early
  function SetUpClient(c: nat): Code {
    Then(Log(), Then(AddContext(), Either(Repeat(Log()), Then(Log(), Then(InitContext(c), Repeat(Log()))))))
  }

  // client_manager_add_new_client
  function AddClient(c: nat): Code {
    Then(Locked(ClientList, Either(Skip, SetUpClient(c))), Log())
  }

  // client_manager_broadcast_message
  function ClientBroadcast(): Code {
    Then(Locked(ClientList, Repeat(Log())), Log())
  }

  // client_manager_remove_client, the broadcast coming after the unlock
  function RemoveClient(): Code {
    Then(Locked(ClientList, Either(Skip, Then(Log(), Then(Locked(SecurityManager, Log()), Repeat(Log()))))),
         Either(Skip, ClientBroadcast()))
  }

  // client_manager_broadcast_user_list
  function UserList(): Code {
    Then(Locked(ClientList, Skip), Then(Log(), ClientBroadcast()))
  }

  // client_session_receive_message
  function Receive(c: nat): Code {
    Then(Log(), Either(Skip, Then(Locked(SecurityManager, Either(Skip, Locked(Crypto(c), Skip))), Log())))
  }

  // chat_protocol_handle_message: any mix of the room and client operations
  function Handle(): Code {
    Then(Log(), Repeat(
      Either(ChangeRoom(),
             Either(RoomBroadcast(), Either(ReadRooms(), Either(ClientBroadcast(), Either(UserList(), Log())))))))
  }

  // client_session_handler_thread
  function Handler(c: nat): Code {
    Then(Repeat(Log()), Then(Repeat(Then(Receive(c), Handle())), RemoveClient()))
  }

  // server_accept_clients, with whichever slot is handed out
  function Acceptor(): Code {
    Repeat(Then(Log(), Then(AnyOf(CS.MAX_CLIENTS, AddClient), Either(Log(), RemoveClient()))))
  }

  lemma {:induction false} AnyOrdered(codes: seq<Code>, floor: int)
    requires forall k :: 0 <= k < |codes| ==> Ordered(codes[k], floor)
    ensures Ordered(Any(codes), floor)
  {
    if codes != [] {
      AnyOrdered(codes[..|codes| - 1], floor);
    }
  }

  lemma AnyOfOrdered(n: nat, f: nat -> Code, floor: int)
    requires forall k :: 0 <= k < n ==> Ordered(f(k), floor)
    ensures Ordered(AnyOf(n, f), floor)
  {
    AnyOrdered(seq(n, k requires 0 <= k < n => f(k)), floor);
  }

  lemma LogOrdered(floor: int)
    requires floor < 5
    ensures Ordered(Log(), floor) && Ordered(Repeat(Log()), floor)
  {
    assert Ordered(Locked(Logger, Skip), floor);
  }

  lemma RoomsOrdered()
    ensures Ordered(ChangeRoom(), -1) && Ordered(RoomBroadcast(), -1) && Ordered(ReadRooms(), -1)
  {
    LogOrdered(-1);
    LogOrdered(3);
    LogOrdered(4);
    forall k | 0 <= k < RT.MAX_ROOMS ensures Ordered(AddToRoom(k), 3) && Ordered(SendInRoom(k), 3) {
      assert Ordered(Locked(RoomLock(k), Log()), 3);
      assert Ordered(TouchRoom(k), 3);
      assert Ordered(Then(TouchRoom(k), Log()), 3);
    }
    AnyOfOrdered(RT.MAX_ROOMS, AddToRoom, 3);
    AnyOfOrdered(RT.MAX_ROOMS, SendInRoom, 3);
    assert Ordered(Then(Log(), AnyOf(RT.MAX_ROOMS, AddToRoom)), 3);
    assert Ordered(Locked(RoomList, Then(Log(), AnyOf(RT.MAX_ROOMS, AddToRoom))), -1);
    assert Ordered(Either(Log(), AnyOf(RT.MAX_ROOMS, SendInRoom)), 3);
    assert Ordered(Locked(RoomList, Either(Log(), AnyOf(RT.MAX_ROOMS, SendInRoom))), -1);
  }

  lemma ClientsOrdered(c: nat)
    ensures Ordered(AddClient(c), -1) && Ordered(ClientBroadcast(), -1)
    ensures Ordered(RemoveClient(), -1) && Ordered(UserList(), -1)
    ensures Ordered(Receive(c), -1)
  {
    LogOrdered(-1);
    LogOrdered(0);
    LogOrdered(1);
    assert Ordered(Locked(SecurityManager, Repeat(Log())), 0);
    assert Ordered(AddContext(), 0);
    assert Ordered(Either(Skip, Locked(Crypto(c), Skip)), 1);
    assert Ordered(Then(Either(Skip, Locked(Crypto(c), Skip)), Log()), 1);
    assert Ordered(InitContext(c), 0);
    assert Ordered(Then(InitContext(c), Repeat(Log())), 0);
    assert Ordered(Then(Log(), Then(InitContext(c), Repeat(Log()))), 0);
    assert Ordered(Either(Repeat(Log()), Then(Log(), Then(InitContext(c), Repeat(Log())))), 0);
    assert Ordered(SetUpClient(c), 0);
    assert Ordered(Locked(ClientList, Either(Skip, SetUpClient(c))), -1);
    assert Ordered(Locked(ClientList, Repeat(Log())), -1);
    assert Ordered(Locked(SecurityManager, Log()), 0);
    assert Ordered(Then(Locked(SecurityManager, Log()), Repeat(Log())), 0);
    assert Ordered(Then(Log(), Then(Locked(SecurityManager, Log()), Repeat(Log()))), 0);
    var guarded := Either(Skip, Then(Log(), Then(Locked(SecurityManager, Log()), Repeat(Log()))));
    assert Ordered(Locked(ClientList, guarded), -1);
    assert Ordered(Locked(SecurityManager, Either(Skip, Locked(Crypto(c), Skip))), -1);
    assert Ordered(Then(Locked(SecurityManager, Either(Skip, Locked(Crypto(c), Skip))), Log()), -1);
  }

  /** Every handler and the acceptor take their locks in one strict order. */
  lemma {:induction false} ServerOrdered(c: nat)
    ensures Ordered(Handler(c), -1) && Ordered(Acceptor(), -1)
  {
    LogOrdered(-1);
    RoomsOrdered();
    ClientsOrdered(c);
    assert Ordered(Either(UserList(), Log()), -1);
    assert Ordered(Either(ClientBroadcast(), Either(UserList(), Log())), -1);
    assert Ordered(Either(ReadRooms(), Either(ClientBroadcast(), Either(UserList(), Log()))), -1);
    assert Ordered(Handle(), -1);
    assert Ordered(Then(Receive(c), Handle()), -1);
    forall k | 0 <= k < CS.MAX_CLIENTS ensures Ordered(AddClient(k), -1) {
      ClientsOrdered(k);
    }
    AnyOfOrdered(CS.MAX_CLIENTS, AddClient, -1);
    assert Ordered(Then(AnyOf(CS.MAX_CLIENTS, AddClient), Either(Log(), RemoveClient())), -1);
  }

  // ---------------------------------------------------------------- running threads

  /** A thread's future: code still to run and locks still to give back, innermost first. */
  datatype Item = Do(code: Code) | Release(lock: Lock)

  type Thread = seq<Item>

  type State = seq<Thread>

  predicate Holds(th: Thread, l: Lock) {
    Release(l) in th
  }

  predicate Free(s: State, l: Lock) {
    forall i :: 0 <= i < |s| ==> !Holds(s[i], l)
  }

  /** What thread i may become in one step. */
  ghost predicate Advances(s: State, i: nat, th: Thread)
    requires i < |s|
  {
    s[i] != [] &&
    var rest := s[i][1..];
    match s[i][0]
    case Release(_) => th == rest
    case Do(Skip) => th == rest
    case Do(Locked(l, body)) => Free(s, l) && th == [Do(body), Release(l)] + rest
    case Do(Then(a, b)) => th == [Do(a), Do(b)] + rest
    case Do(Either(a, b)) => th == [Do(a)] + rest || th == [Do(b)] + rest
    case Do(Repeat(body)) => th == rest || th == [Do(body), Do(Repeat(body))] + rest
  }

  /** One thread advances, or the acceptor's pthread_create adds one. */
  ghost predicate Step(s: State, t: State) {
    || (exists i: nat, th: Thread :: i < |s| && Advances(s, i, th) && t == s[i := th])
    || (exists c: nat :: t == s + [[Do(Handler(c))]])
  }

  ghost predicate IsRun(run: seq<State>) {
    |run| > 0 && forall n :: 0 <= n < |run| - 1 ==> Step(run[n], run[n + 1])
  }

  // ---------------------------------------------------------------- the invariant

  /** The rank of the innermost lock held, -1 for none. */
  function Floor(th: Thread): int {
    if th == [] then -1
    else match th[0] case Do(_) => Floor(th[1..]) case Release(l) => Rank(l)
  }

  predicate WellNested(th: Thread) {
    th == [] ||
    (WellNested(th[1..]) &&
     match th[0] case Do(c) => Ordered(c, Floor(th[1..])) case Release(l) => Rank(l) > Floor(th[1..]))
  }

  ghost predicate Exclusive(s: State) {
    forall i, j, l :: 0 <= i < |s| && 0 <= j < |s| && Holds(s[i], l) && Holds(s[j], l) ==> i == j
  }

  ghost predicate Inv(s: State) {
    (forall i :: 0 <= i < |s| ==> WellNested(s[i])) && Exclusive(s)
  }

  lemma {:induction false} HeldBelowFloor(th: Thread, l: Lock)
    requires WellNested(th) && Holds(th, l)
    ensures Rank(l) <= Floor(th)
  {
    if th[0] == Release(l) {
    } else {
      assert Release(l) in th[1..];
      HeldBelowFloor(th[1..], l);
    }
  }

  predicate FitsOn(item: Item, floor: int) {
    match item case Do(c) => Ordered(c, floor) case Release(l) => Rank(l) > floor
  }

  lemma PushNested(item: Item, rest: Thread)
    requires WellNested(rest) && FitsOn(item, Floor(rest))
    ensures WellNested([item] + rest)
    ensures Floor([item] + rest) == if item.Do? then Floor(rest) else Rank(item.lock)
    ensures forall l :: Holds([item] + rest, l) <==> item == Release(l) || Holds(rest, l)
  {
    assert ([item] + rest)[1..] == rest;
  }

  lemma PushTwoNested(a: Item, b: Item, rest: Thread)
    requires WellNested(rest) && FitsOn(b, Floor(rest)) && FitsOn(a, if b.Do? then Floor(rest) else Rank(b.lock))
    ensures WellNested([a, b] + rest)
    ensures forall l :: Holds([a, b] + rest, l) <==> a == Release(l) || b == Release(l) || Holds(rest, l)
  {
    PushNested(b, rest);
    PushNested(a, [b] + rest);
    assert [a] + ([b] + rest) == [a, b] + rest;
  }

  lemma AdvanceNested(s: State, i: nat, th: Thread)
    requires i < |s| && WellNested(s[i]) && Advances(s, i, th)
    ensures WellNested(th)
    ensures forall l :: Holds(th, l) ==> Holds(s[i], l) || Free(s, l)
  {
    var rest := s[i][1..];
    assert forall l :: Holds(rest, l) ==> Holds(s[i], l);
    match s[i][0]
    case Release(_) =>
    case Do(Skip) =>
    case Do(Locked(l, body)) => PushTwoNested(Do(body), Release(l), rest);
    case Do(Then(a, b)) => PushTwoNested(Do(a), Do(b), rest);
    case Do(Either(a, b)) =>
      PushNested(Do(a), rest);
      PushNested(Do(b), rest);
    case Do(Repeat(body)) => PushTwoNested(Do(body), Do(Repeat(body)), rest);
  }

  lemma NewThread(c: Code)
    requires Ordered(c, -1)
    ensures WellNested([Do(c)]) && forall l :: !Holds([Do(c)], l)
  {
    var th: Thread := [Do(c)];
    assert th[1..] == [] && th[0] == Do(c);
    assert WellNested(th[1..]) && Floor(th[1..]) == -1;
  }

  lemma AddThread(s: State, th: Thread)
    requires Inv(s) && WellNested(th) && forall l :: !Holds(th, l)
    ensures Inv(s + [th])
  {
  }

  lemma StepKeepsInv(s: State, t: State)
    requires Inv(s) && Step(s, t)
    ensures Inv(t)
  {
    if i: nat, th: Thread :| i < |s| && Advances(s, i, th) && t == s[i := th] {
      AdvanceNested(s, i, th);
    } else {
      var c: nat :| t == s + [[Do(Handler(c))]];
      ServerOrdered(c);
      NewThread(Handler(c));
      AddThread(s, [Do(Handler(c))]);
    }
  }

  lemma {:induction false} EveryRunKeepsInv(run: seq<State>)
    requires IsRun(run) && Inv(run[0])
    ensures Inv(run[|run| - 1])
  {
    if |run| == 1 {
    } else {
      var n := |run| - 2;
      EveryRunKeepsInv(run[..n + 1]);
      StepKeepsInv(run[n], run[n + 1]);
    }
  }

  // ---------------------------------------------------------------- no deadlock

  predicate Wants(th: Thread, l: Lock) {
    th != [] && th[0].Do? && th[0].code.Locked? && th[0].code.lock == l
  }

  /** Thread i is stopped at a lock that thread j holds. */
  ghost predicate WaitsFor(s: State, i: nat, j: nat) {
    i < |s| && j < |s| && exists l :: Wants(s[i], l) && Holds(s[j], l)
  }

  ghost predicate CanStep(s: State, i: nat) {
    i < |s| && exists th :: Advances(s, i, th)
  }

  lemma RunnableOrBlocked(s: State, i: nat) returns (l: Lock, j: nat)
    requires i < |s| && s[i] != []
    ensures CanStep(s, i) || (j < |s| && Wants(s[i], l) && Holds(s[j], l))
  {
    l, j := Logger, 0;
    var rest := s[i][1..];
    match s[i][0]
    case Release(_) => assert Advances(s, i, rest);
    case Do(Skip) => assert Advances(s, i, rest);
    case Do(Locked(m, body)) =>
      if Free(s, m) {
        assert Advances(s, i, [Do(body), Release(m)] + rest);
      } else {
        l := m;
        j :| 0 <= j < |s| && Holds(s[j], m);
      }
    case Do(Then(a, b)) => assert Advances(s, i, [Do(a), Do(b)] + rest);
    case Do(Either(a, b)) => assert Advances(s, i, [Do(a)] + rest);
    case Do(Repeat(body)) => assert Advances(s, i, rest);
  }

  /** A thread holding l wants only locks ranked above l. */
  lemma WantsAbove(s: State, j: nat, l: Lock, m: Lock)
    requires Inv(s) && j < |s| && Holds(s[j], l) && Wants(s[j], m)
    ensures Rank(m) > Rank(l)
  {
    var rest := s[j][1..];
    assert Holds(rest, l);
    HeldBelowFloor(rest, l);
  }

  ghost predicate WaitingChain(s: State, p: seq<nat>) {
    forall n :: 0 <= n < |p| - 1 ==> WaitsFor(s, p[n], p[n + 1])
  }

  /** The threads waiting for one another from i on, up to one that can move. */
  ghost predicate LeadsToRunning(s: State, i: nat, p: seq<nat>) {
    p != [] && p[0] == i && WaitingChain(s, p) && CanStep(s, p[|p| - 1])
  }

  lemma PrependWaiting(s: State, i: nat, k: nat, rest: seq<nat>)
    requires WaitsFor(s, i, k) && LeadsToRunning(s, k, rest)
    ensures LeadsToRunning(s, i, [i] + rest)
  {
    var p := [i] + rest;
    forall n | 0 <= n < |p| - 1 ensures WaitsFor(s, p[n], p[n + 1]) {
      if n > 0 {
        assert p[n] == rest[n - 1] && p[n + 1] == rest[n];
      }
    }
  }

  /** Following the waiting threads always leads to one that can move. */
  lemma {:induction false} SomeoneRuns(s: State, i: nat, l: Lock) returns (p: seq<nat>)
    requires Inv(s) && i < |s| && Holds(s[i], l)
    ensures LeadsToRunning(s, i, p)
    decreases 5 - Rank(l)
  {
    assert s[i] != [];
    var m, k := RunnableOrBlocked(s, i);
    if CanStep(s, i) {
      p := [i];
    } else {
      WantsAbove(s, i, l, m);
      p := SomeoneRuns(s, k, m);
      PrependWaiting(s, i, k, p);
      p := [i] + p;
    }
  }

  /** Deadlock freedom: every unfinished thread can move, or waits, through others, for one that can. */
  lemma {:induction false} NoDeadlock(run: seq<State>, i: nat) returns (p: seq<nat>)
    requires IsRun(run) && Inv(run[0])
    requires i < |run[|run| - 1]| && run[|run| - 1][i] != []
    ensures LeadsToRunning(run[|run| - 1], i, p)
  {
    var s := run[|run| - 1];
    EveryRunKeepsInv(run);
    var l, k := RunnableOrBlocked(s, i);
    if CanStep(s, i) {
      p := [i];
    } else {
      p := SomeoneRuns(s, k, l);
      PrependWaiting(s, i, k, p);
      p := [i] + p;
    }
  }

  lemma {:induction false} ChainClimbs(s: State, p: seq<nat>, a: Lock, b: Lock)
    requires Inv(s) && |p| >= 2 && WaitingChain(s, p)
    requires p[0] < |s| && Wants(s[p[0]], a) && p[|p| - 1] < |s| && Wants(s[p[|p| - 1]], b)
    ensures Rank(a) < Rank(b)
    decreases |p|
  {
    assert WaitsFor(s, p[0], p[1]);
    var l :| Wants(s[p[0]], l) && Holds(s[p[1]], l);
    if |p| == 2 {
      WantsAbove(s, p[1], l, b);
    } else {
      assert WaitsFor(s, p[1], p[2]);
      var m :| Wants(s[p[1]], m) && Holds(s[p[2]], m);
      WantsAbove(s, p[1], l, m);
      forall n | 0 <= n < |p[1..]| - 1 ensures WaitsFor(s, p[1..][n], p[1..][n + 1]) {
        assert WaitsFor(s, p[n + 1], p[n + 2]);
      }
      ChainClimbs(s, p[1..], m, b);
    }
  }

  /** No reachable state has a cycle of waiting threads. */
  lemma {:induction false} NoWaitingCycle(run: seq<State>, p: seq<nat>)
    requires IsRun(run) && Inv(run[0])
    requires |p| >= 2 && WaitingChain(run[|run| - 1], p)
    ensures p[0] != p[|p| - 1]
  {
    var s := run[|run| - 1];
    EveryRunKeepsInv(run);
    assert WaitsFor(s, p[0], p[1]);
    var l :| Wants(s[p[0]], l) && Holds(s[p[1]], l);
    if p[0] == p[|p| - 1] {
      ChainClimbs(s, p, l, l);
      assert false;
    }
  }

  // ---------------------------------------------------------------- the server never deadlocks

  /** A freshly started server: the acceptor and any number of handlers. */
  ghost predicate Started(s: State) {
    |s| > 0 && s[0] == [Do(Acceptor())] && forall i :: 1 <= i < |s| ==> exists c: nat :: s[i] == [Do(Handler(c))]
  }

  lemma StartedThread(s: State, k: nat)
    requires Started(s) && k < |s|
    ensures WellNested(s[k]) && forall l :: !Holds(s[k], l)
  {
    if k == 0 {
      ServerOrdered(0);
      NewThread(Acceptor());
    } else {
      var c: nat :| s[k] == [Do(Handler(c))];
      ServerOrdered(c);
      NewThread(Handler(c));
    }
  }

  lemma StartedInv(s: State)
    requires Started(s)
    ensures Inv(s)
  {
    forall k | 0 <= k < |s| ensures WellNested(s[k]) && forall l :: !Holds(s[k], l) {
      StartedThread(s, k);
    }
  }

  /** So in every run of the server each unfinished thread leads to one that can move; none wait in a circle. */
  lemma {:induction false} ServerNeverDeadlocks(run: seq<State>, i: nat, q: seq<nat>) returns (p: seq<nat>)
    requires IsRun(run) && Started(run[0])
    requires i < |run[|run| - 1]| && run[|run| - 1][i] != []
    ensures LeadsToRunning(run[|run| - 1], i, p)
    ensures |q| >= 2 && WaitingChain(run[|run| - 1], q) ==> q[0] != q[|q| - 1]
  {
    StartedInv(run[0]);
    p := NoDeadlock(run, i);
    if |q| >= 2 && WaitingChain(run[|run| - 1], q) {
      NoWaitingCycle(run, q);
    }
  }

  // ---------------------------------------------------------------- the order matters

  const INFO := 1  // LOG_LEVEL_INFO

  /** LOG_INFO under a given configuration. */
  function LogInfo(initialized: bool, minLevel: nat): Code {
    if !initialized || INFO < minLevel then Skip else Locked(Logger, Skip)
  }

  /** logger_cleanup; fileSink says that output_file is set and is neither stdout nor stderr. */
  function LoggerCleanup(initialized: bool, fileSink: bool, minLevel: nat): Code {
    Locked(Logger, if initialized && fileSink then LogInfo(initialized, minLevel) else Skip)
  }

  /** The guard of the branch that logs while the logger's own mutex is held. */
  predicate LogsUnderLock(initialized: bool, fileSink: bool, minLevel: nat) {
    initialized && fileSink && minLevel <= INFO
  }

  /** A run of one thread executing c alone, up to a state in which it is unfinished and cannot move. */
  ghost predicate EndsStuck(run: seq<State>, c: Code) {
    && IsRun(run) && run[0] == [[Do(c)]]
    && var end := run[|run| - 1];
       |end| == 1 && end[0] != [] && forall i :: !CanStep(end, i)
  }

  lemma StuckRun(minLevel: nat) returns (run: seq<State>)
    requires minLevel <= INFO
    ensures EndsStuck(run, LoggerCleanup(true, true, minLevel))
  {
    var start: Thread := [Do(LoggerCleanup(true, true, minLevel))];
    var stuck: Thread := [Do(Locked(Logger, Skip)), Release(Logger)];
    run := [[start], [stuck]];
    assert Advances([start], 0, stuck) by {
      assert stuck == [Do(Locked(Logger, Skip)), Release(Logger)] + start[1..];
    }
    assert [start][0 := stuck] == [stuck];
    assert Holds(stuck, Logger) && !Free([stuck], Logger) by {
      assert [stuck][0] == stuck;
    }
  }

  /** The cleanup breaks the lock order, and alone it can get stuck, exactly when that branch is taken. */
  lemma {:induction false} CleanupBlocksExactly(initialized: bool, fileSink: bool, minLevel: nat)
    ensures Ordered(LoggerCleanup(initialized, fileSink, minLevel), -1)
       <==> !LogsUnderLock(initialized, fileSink, minLevel)
    ensures (exists run :: EndsStuck(run, LoggerCleanup(initialized, fileSink, minLevel)))
       <==> LogsUnderLock(initialized, fileSink, minLevel)
  {
    var c := LoggerCleanup(initialized, fileSink, minLevel);
    if LogsUnderLock(initialized, fileSink, minLevel) {
      var run := StuckRun(minLevel);
      assert EndsStuck(run, c);
    } else {
      NewThread(c);
      forall run ensures !EndsStuck(run, c) {
        if EndsStuck(run, c) {
          assert Inv(run[0]);
          var p := NoDeadlock(run, 0);
        }
      }
    }
  }

  /** Whatever the other threads do, a cleanup that takes that branch never finishes. */
  lemma {:induction false} CleanupNeverFinishes(run: seq<State>, k: nat, minLevel: nat)
    requires IsRun(run) && k < |run[0]| && run[0][k] == [Do(LoggerCleanup(true, true, minLevel))] && minLevel <= INFO
    ensures var end := run[|run| - 1];
            && k < |end|
            && (end[k] == run[0][k] || end[k] == [Do(Locked(Logger, Skip)), Release(Logger)])
  {
    if |run| > 1 {
      var n := |run| - 2;
      CleanupNeverFinishes(run[..n + 1], k, minLevel);
      var s := run[n];
      assert run[..n + 1][n] == s && Step(s, run[n + 1]);
      if s[k] != run[0][k] {
        assert Holds(s[k], Logger) && !Free(s, Logger);
      }
    }
  }
}

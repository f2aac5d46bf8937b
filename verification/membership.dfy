/** What the interleaved server guarantees about who is in which room, over every run. */
module Membership {
  import opened Counting
  import opened RoomTable
  import opened RoomResults
  import opened ChatServer
  import CS = ClientSlots

  // ---------------------------------------------------------------- runs

  ghost predicate Runs(s: State, actions: seq<Action>)
    requires ChatServer.Shaped(s)
    decreases |actions|
  {
    actions == [] ||
    (Enabled(s, actions[0]) && (StepKeepsShape(s, actions[0]); Runs(Next(s, actions[0]), actions[1..])))
  }

  ghost function Exec(s: State, actions: seq<Action>): (u: State)
    requires ChatServer.Shaped(s) && Runs(s, actions)
    ensures ChatServer.Shaped(u)
    decreases |actions|
  {
    if actions == [] then s
    else
      StepKeepsShape(s, actions[0]);
      Exec(Next(s, actions[0]), actions[1..])
  }

  lemma PrependRun(s: State, a: Action, rest: seq<Action>)
    requires ChatServer.Shaped(s) && Enabled(s, a) && ChatServer.Shaped(Next(s, a)) && Runs(Next(s, a), rest)
    ensures Runs(s, [a] + rest) && Exec(s, [a] + rest) == Exec(Next(s, a), rest)
  {
    assert ([a] + rest)[1..] == rest;
  }

  /** The counting invariants of both tables hold after every run, with colliding ids and disconnects. */
  lemma {:induction false} EveryRunKeepsInv(s: State, actions: seq<Action>)
    requires Inv(s) && Runs(s, actions)
    ensures Inv(Exec(s, actions))
    decreases |actions|
  {
    if actions == [] {
    } else {
      StepKeepsInv(s, actions[0]);
      EveryRunKeepsInv(Next(s, actions[0]), actions[1..]);
    }
  }

  /** Both "no slot found" fall-throughs are dead in every reachable state. */
  lemma {:induction false} FallThroughsUnreachable(actions: seq<Action>, id: string, name: string, c: nat, k: nat)
    requires ChatServer.Shaped(Start()) && Runs(Start(), actions) && |id| == ID_LENGTH && k < MAX_ROOMS
    ensures var t := Exec(Start(), actions).table;
            && RoomTable.Valid(t)
            && RoomTable.Create(t, id, name, c).1 != NoFreeRoom
            && Add(t.rooms[k], c).1 != NoFreeSlot
  {
    StartInv();
    EveryRunKeepsInv(Start(), actions);
    var t := Exec(Start(), actions).table;
    CreateKeepsValid(t, id, name, c);
    assert RoomOk(t, k);
    AddCounts(t.rooms[k], c);
  }

  // ---------------------------------------------------------------- others cannot touch a membership

  /** The client slot an action works for; -1 for the acceptor and for sends on the client list. */
  function Actor(s: State, a: Action): int
    requires Enabled(s, a)
  {
    match a
    case Accept(_, _) => -1
    case DoSend(_, _) => -1
    case Shake(t, _) => s.threads[t].slot
    case Begin(t, _) => s.threads[t].slot
    case DoLeave(t) => s.threads[t].slot
    case DoCreate(t, _) => s.threads[t].slot
    case DoCopy(t) => s.threads[t].slot
    case DoEnter(t) => s.threads[t].slot
    case DoJoin(t) => s.threads[t].slot
    case DoBroadcast(t) => s.threads[t].slot
    case DoClear(t) => s.threads[t].slot
    case DoRemove(t) => s.threads[t].slot
  }

  lemma StepKeepsOthers(s: State, a: Action)
    requires Inv(s) && Enabled(s, a)
    ensures |Next(s, a).table.rooms| == MAX_ROOMS && KeepsOthers(s.table, Next(s, a).table, Actor(s, a))
  {
    MembersMeanActive(s.table);
    match a
    case DoLeave(t) => LeaveKeepsOthers(s.table, SessionOf(s, t).roomId, s.threads[t].slot);
    case DoCreate(t, id) => CreateKeepsOthers(s.table, id, s.threads[t].pc.name, s.threads[t].slot);
    case DoJoin(t) => JoinKeepsOthers(s.table, s.threads[t].pc.id, s.threads[t].slot);
    case _ => assert Next(s, a).table == s.table;
  }

  ghost predicate NoneBy(s: State, actions: seq<Action>, c: nat)
    requires ChatServer.Shaped(s) && Runs(s, actions)
    decreases |actions|
  {
    actions == [] ||
    (Actor(s, actions[0]) != c && (StepKeepsShape(s, actions[0]); NoneBy(Next(s, actions[0]), actions[1..], c)))
  }

  /**
   While client c itself does nothing, no run of the others removes it from its room, closes or
   renames that room or reuses its slot, even if room ids collide.
   */
  lemma {:induction false} MembershipIsStable(s: State, actions: seq<Action>, c: nat, k: nat)
    requires Inv(s) && Runs(s, actions) && NoneBy(s, actions, c)
    requires k < MAX_ROOMS && c in s.table.rooms[k].clientIds
    ensures Inv(Exec(s, actions))
    ensures var r := Exec(s, actions).table.rooms[k];
            c in r.clientIds && r.active && r.id == s.table.rooms[k].id && r.name == s.table.rooms[k].name
    decreases |actions|
  {
    if actions == [] {
      MembersMeanActive(s.table);
    } else {
      StepKeepsOthers(s, actions[0]);
      StepKeepsInv(s, actions[0]);
      MembershipIsStable(Next(s, actions[0]), actions[1..], c, k);
    }
  }

  // ---------------------------------------------------------------- fresh ids

  ghost predicate DistinctIds(t: Table) {
    forall j, k :: 0 <= j < k < |t.rooms| && t.rooms[j].active && t.rooms[k].active ==> t.rooms[j].id != t.rooms[k].id
  }

  /** The generated id is not in use; room_generate_id itself does not check this. */
  ghost predicate FreshId(s: State, a: Action) {
    a.DoCreate? ==> forall k :: 0 <= k < |s.table.rooms| && s.table.rooms[k].active ==> s.table.rooms[k].id != a.id
  }

  lemma DistinctUpdate(t: Table, k: nat, r: Room)
    requires DistinctIds(t) && k < |t.rooms|
    requires r.active ==> forall j :: 0 <= j < |t.rooms| && j != k && t.rooms[j].active ==> t.rooms[j].id != r.id
    ensures DistinctIds(t.(rooms := t.rooms[k := r]))
  {
  }

  lemma CreateKeepsDistinct(t: Table, id: string, name: string, c: nat)
    requires RoomTable.Valid(t) && DistinctIds(t) && |id| == ID_LENGTH
    requires forall k :: 0 <= k < |t.rooms| && t.rooms[k].active ==> t.rooms[k].id != id
    ensures DistinctIds(RoomTable.Create(t, id, name, c).0)
  {
    CreateKeepsValid(t, id, name, c);
    var (u, out) := RoomTable.Create(t, id, name, c);
    if out.Created? {
      DistinctUpdate(t, out.slot, u.rooms[out.slot]);
    }
  }

  lemma JoinKeepsDistinct(t: Table, id: string, c: nat)
    requires RoomTable.Valid(t) && DistinctIds(t)
    ensures DistinctIds(RoomTable.Join(t, id, c).0)
  {
    JoinKeepsValid(t, id, c);
    var (u, out) := RoomTable.Join(t, id, c);
    if out.Tried? {
      DistinctUpdate(t, out.slot, u.rooms[out.slot]);
    }
  }

  lemma LeaveKeepsDistinct(t: Table, id: string, c: nat)
    requires RoomTable.Valid(t) && DistinctIds(t)
    ensures DistinctIds(RoomTable.Leave(t, id, c).0)
  {
    LeaveKeepsValid(t, id, c);
    var k := First(t.rooms, HasId(id));
    if k < MAX_ROOMS {
      DistinctUpdate(t, k, RoomTable.Leave(t, id, c).0.rooms[k]);
    }
  }

  lemma StepKeepsDistinct(s: State, a: Action)
    requires Inv(s) && Enabled(s, a) && DistinctIds(s.table) && FreshId(s, a)
    ensures DistinctIds(Next(s, a).table)
  {
    match a
    case DoLeave(t) => LeaveKeepsDistinct(s.table, SessionOf(s, t).roomId, s.threads[t].slot);
    case DoCreate(t, id) => CreateKeepsDistinct(s.table, id, s.threads[t].pc.name, s.threads[t].slot);
    case DoJoin(t) => JoinKeepsDistinct(s.table, s.threads[t].pc.id, s.threads[t].slot);
    case _ => assert Next(s, a).table == s.table;
  }

  ghost predicate AllFresh(s: State, actions: seq<Action>)
    requires ChatServer.Shaped(s) && Runs(s, actions)
    decreases |actions|
  {
    actions == [] ||
    (FreshId(s, actions[0]) && (StepKeepsShape(s, actions[0]); AllFresh(Next(s, actions[0]), actions[1..])))
  }

  // ---------------------------------------------------------------- membership and the session

  /** Thread t serves slot c and has not finished; a finished thread does nothing any more. */
  ghost predicate At(s: State, c: nat, t: int) {
    0 <= t < |s.threads| && s.threads[t].slot == c && !s.threads[t].pc.Exited?
  }

  ghost predicate InRoom(s: State, c: nat, k: int) {
    0 <= k < |s.table.rooms| && c in s.table.rooms[k].clientIds
  }

  /** The id a client's rooms may have, by where its handler is. */
  predicate Allowed(x: Session, pc: Pc, id: string) {
    match pc
    case Handshaking => false
    case CreateRoom(_) => false
    case JoinRoom(_) => false
    case LeaveClear => false
    case CopyId(own) => id == own
    case Entering(into, _) => id == into
    case _ => Names(x, id)
  }

  ghost predicate Agrees(s: State, c: nat, t: int)
    requires ChatServer.Shaped(s) && At(s, c, t) && c < CS.MAX_CLIENTS
  {
    && (forall k :: InRoom(s, c, k) ==> Allowed(s.slots.sessions[c], s.threads[t].pc, s.table.rooms[k].id))
    && (s.threads[t].pc.CopyId? ==>
        && (exists k :: InRoom(s, c, k) && s.table.rooms[k].id == s.threads[t].pc.own)
        && (s.lastCreator == t <==> s.idBuffer == s.threads[t].pc.own))
  }

  /**
   Slot c is served by at most one thread, which exists exactly while the session is active, and
   every room listing c is one the session names or the thread is just entering.
   */
  ghost predicate Consistent(s: State, c: nat)
    requires ChatServer.Shaped(s) && c < CS.MAX_CLIENTS
  {
    && (forall t, u :: At(s, c, t) && At(s, c, u) ==> t == u)
    && (s.slots.sessions[c].active <==> exists t :: At(s, c, t))
    && (forall t :: At(s, c, t) ==> Agrees(s, c, t))
    && (!s.slots.sessions[c].active ==> forall k :: !InRoom(s, c, k))
  }

  /** Nothing that concerns c has changed. */
  ghost predicate SameFor(s: State, u: State, c: nat)
    requires ChatServer.Shaped(s) && ChatServer.Shaped(u) && c < CS.MAX_CLIENTS
  {
    && u.slots.sessions[c] == s.slots.sessions[c]
    && (forall t :: At(s, c, t) <==> At(u, c, t))
    && (forall t :: At(s, c, t) ==> u.threads[t] == s.threads[t])
    && (forall k :: InRoom(s, c, k) <==> InRoom(u, c, k))
    && (forall k :: InRoom(s, c, k) ==> u.table.rooms[k].id == s.table.rooms[k].id)
  }

  ghost predicate BufferKept(s: State, u: State, c: nat) {
    forall t :: At(s, c, t) && s.threads[t].pc.CopyId? ==>
      (u.lastCreator == t <==> u.idBuffer == s.threads[t].pc.own)
  }

  lemma ConsistentFrame(s: State, u: State, c: nat)
    requires ChatServer.Shaped(s) && ChatServer.Shaped(u) && c < CS.MAX_CLIENTS
    requires Consistent(s, c) && SameFor(s, u, c) && BufferKept(s, u, c)
    ensures Consistent(u, c)
  {
    forall t | At(u, c, t) ensures Agrees(u, c, t) {
      assert At(s, c, t) && Agrees(s, c, t);
      if s.threads[t].pc.CopyId? {
        var k :| InRoom(s, c, k) && s.table.rooms[k].id == s.threads[t].pc.own;
        assert InRoom(u, c, k);
      }
    }
    if s.slots.sessions[c].active {
      var t :| At(s, c, t);
      assert At(u, c, t);
    }
  }

  /** A failed send drops client c. */
  predicate DropsClient(s: State, a: Action, c: nat)
    requires ChatServer.Shaped(s) && c < CS.MAX_CLIENTS
  {
    a.DoSend? && CS.Drops(s.slots, c, a.sender, a.failing)
  }

  lemma OtherStepSession(s: State, a: Action, c: nat)
    requires Inv(s) && Enabled(s, a) && c < CS.MAX_CLIENTS && Actor(s, a) != c
    requires !DropsClient(s, a, c)
    requires a.Accept? ==> First(s.slots.sessions, CS.IsInactive) != c
    ensures ChatServer.Shaped(Next(s, a)) && Next(s, a).slots.sessions[c] == s.slots.sessions[c]
  {
    StepKeepsShape(s, a);
    if a.DoSend? {
      CS.BroadcastKeepsValid(s.slots, CS.MAX_CLIENTS, a.sender, a.failing);
    }
  }

  lemma OtherStepThreads(s: State, a: Action, c: nat)
    requires ChatServer.Shaped(s) && Enabled(s, a) && c < CS.MAX_CLIENTS && Actor(s, a) != c
    requires a.Accept? ==> First(s.slots.sessions, CS.IsInactive) != c
    ensures forall t :: At(s, c, t) <==> At(Next(s, a), c, t)
    ensures forall t :: At(s, c, t) ==> Next(s, a).threads[t] == s.threads[t]
  {
  }

  lemma OtherStepSame(s: State, a: Action, c: nat)
    requires Inv(s) && Enabled(s, a) && c < CS.MAX_CLIENTS && Actor(s, a) != c
    requires !DropsClient(s, a, c)
    requires a.Accept? ==> First(s.slots.sessions, CS.IsInactive) != c
    ensures ChatServer.Shaped(Next(s, a)) && SameFor(s, Next(s, a), c)
  {
    OtherStepSession(s, a, c);
    OtherStepThreads(s, a, c);
    StepKeepsOthers(s, a);
  }

  /** An id generated for somebody else never equals the id a thread of c is about to copy. */
  lemma OtherStepBuffer(s: State, a: Action, c: nat)
    requires Inv(s) && Enabled(s, a) && c < CS.MAX_CLIENTS && Actor(s, a) != c && FreshId(s, a)
    requires Consistent(s, c)
    ensures BufferKept(s, Next(s, a), c)
  {
    MembersMeanActive(s.table);
    forall t | At(s, c, t) && s.threads[t].pc.CopyId?
      ensures Next(s, a).lastCreator == t <==> Next(s, a).idBuffer == s.threads[t].pc.own
    {
      assert Agrees(s, c, t);
      if a.DoCreate? {
        var k :| InRoom(s, c, k) && s.table.rooms[k].id == s.threads[t].pc.own;
      } else {
        assert Next(s, a).idBuffer == s.idBuffer && Next(s, a).lastCreator == s.lastCreator;
      }
    }
  }

  lemma AcceptStep(s: State, a: Action, c: nat)
    requires Inv(s) && Enabled(s, a) && a.Accept? && c < CS.MAX_CLIENTS
    requires First(s.slots.sessions, CS.IsInactive) == c && Consistent(s, c)
    ensures ChatServer.Shaped(Next(s, a)) && Consistent(Next(s, a), c)
  {
    StepKeepsShape(s, a);
    var u := Next(s, a);
    assert CS.IsInactive(s.slots.sessions[c]);
    assert forall t :: !At(s, c, t);
    assert u.table == s.table;
    assert forall k :: InRoom(u, c, k) ==> InRoom(s, c, k);
    if a.granted {
      assert At(u, c, |s.threads|);
      forall t | At(u, c, t) ensures t == |s.threads| {
        assert !At(s, c, t);
      }
    } else {
      assert forall t :: At(u, c, t) ==> At(s, c, t);
    }
  }

  // ---------------------------------------------------------------- c's own steps

  /** After c's own step its single thread is still the only one, so only the agreement is left to show. */
  lemma OwnStepFrame(s: State, a: Action, c: nat, t: nat)
    requires Inv(s) && Enabled(s, a) && c < CS.MAX_CLIENTS && At(s, c, t) && Consistent(s, c)
    requires Actor(s, a) == c && !a.DoRemove?
    ensures ChatServer.Shaped(Next(s, a))
    ensures var u := Next(s, a);
            && |u.threads| == |s.threads| && (forall i :: At(s, c, i) <==> At(u, c, i))
            && u.slots.sessions[c].active
            && (At(u, c, t) && Agrees(u, c, t) ==> Consistent(u, c))
  {
    StepKeepsShape(s, a);
    var u := Next(s, a);
    assert forall i :: At(s, c, i) <==> At(u, c, i);
  }

  lemma OwnLocalStep(s: State, a: Action, c: nat, t: nat)
    requires Inv(s) && Enabled(s, a) && c < CS.MAX_CLIENTS && At(s, c, t) && Agrees(s, c, t)
    requires || a == Shake(t, true) || a == Shake(t, false) || (a.Begin? && a.t == t)
             || a == DoBroadcast(t) || a == DoClear(t)
             || a == DoEnter(t)
    ensures ChatServer.Shaped(Next(s, a)) && At(Next(s, a), c, t) && Agrees(Next(s, a), c, t)
  {
    StepKeepsShape(s, a);
    var u := Next(s, a);
    assert u.table == s.table;
    assert forall k :: InRoom(u, c, k) <==> InRoom(s, c, k);
    forall k | InRoom(u, c, k) ensures Allowed(u.slots.sessions[c], u.threads[t].pc, u.table.rooms[k].id) {
      assert InRoom(s, c, k);
      assert Allowed(s.slots.sessions[c], s.threads[t].pc, s.table.rooms[k].id);
      MembersMeanActive(s.table);
    }
  }

  lemma OwnLeaveStep(s: State, c: nat, t: nat)
    requires Inv(s) && Enabled(s, DoLeave(t)) && DistinctIds(s.table)
    requires c < CS.MAX_CLIENTS && At(s, c, t) && Agrees(s, c, t)
    ensures ChatServer.Shaped(Next(s, DoLeave(t))) && At(Next(s, DoLeave(t)), c, t) && Agrees(Next(s, DoLeave(t)), c, t)
  {
    StepKeepsShape(s, DoLeave(t));
    var u, id := Next(s, DoLeave(t)), SessionOf(s, t).roomId;
    LeaveKeepsValid(s.table, id, c);
    MembersMeanActive(s.table);
    var k := First(s.table.rooms, HasId(id));
    forall j | InRoom(s, c, j) ensures j == k {
      assert HasId(id)(s.table.rooms[j]);
    }
    assert forall j :: !InRoom(u, c, j);
  }

  lemma OwnCreateStep(s: State, c: nat, t: nat, id: string)
    requires Inv(s) && Enabled(s, DoCreate(t, id)) && c < CS.MAX_CLIENTS && At(s, c, t) && Agrees(s, c, t)
    ensures ChatServer.Shaped(Next(s, DoCreate(t, id)))
    ensures At(Next(s, DoCreate(t, id)), c, t) && Agrees(Next(s, DoCreate(t, id)), c, t)
  {
    StepKeepsShape(s, DoCreate(t, id));
    var u, name := Next(s, DoCreate(t, id)), s.threads[t].pc.name;
    assert forall k :: !InRoom(s, c, k);
    CreateKeepsValid(s.table, id, name, c);
    var out := RoomTable.Create(s.table, id, name, c).1;
    if out.Created? {
      assert InRoom(u, c, out.slot);
      forall k | InRoom(u, c, k) ensures k == out.slot {
        assert InRoom(s, c, k) || k == out.slot;
      }
    } else {
      assert forall k :: InRoom(u, c, k) ==> InRoom(s, c, k);
    }
  }

  lemma OwnJoinStep(s: State, c: nat, t: nat)
    requires Inv(s) && Enabled(s, DoJoin(t)) && c < CS.MAX_CLIENTS && At(s, c, t) && Agrees(s, c, t)
    ensures ChatServer.Shaped(Next(s, DoJoin(t))) && At(Next(s, DoJoin(t)), c, t) && Agrees(Next(s, DoJoin(t)), c, t)
  {
    StepKeepsShape(s, DoJoin(t));
    var u, id := Next(s, DoJoin(t)), s.threads[t].pc.id;
    assert forall k :: !InRoom(s, c, k);
    JoinKeepsValid(s.table, id, c);
    var out := RoomTable.Join(s.table, id, c).1;
    forall k | InRoom(u, c, k) ensures out.Tried? && out.outcome == Added && k == out.slot {
      assert !InRoom(s, c, k);
    }
  }

  /** Copying the id keeps the agreement exactly when no other room was created in between. */
  lemma OwnCopyStep(s: State, c: nat, t: nat)
    requires Inv(s) && Enabled(s, DoCopy(t)) && c < CS.MAX_CLIENTS && At(s, c, t) && Agrees(s, c, t)
    ensures ChatServer.Shaped(Next(s, DoCopy(t))) && At(Next(s, DoCopy(t)), c, t)
    ensures Agrees(Next(s, DoCopy(t)), c, t) <==> s.lastCreator == t
  {
    StepKeepsShape(s, DoCopy(t));
    var u := Next(s, DoCopy(t));
    assert forall k :: InRoom(u, c, k) <==> InRoom(s, c, k);
    var k :| InRoom(s, c, k) && s.table.rooms[k].id == s.threads[t].pc.own;
    assert InRoom(u, c, k);
  }

  // ---------------------------------------------------------------- the exact condition, over every run

  /** A thread of c copies an id out of the shared buffer after another thread has created a room. */
  ghost predicate Raced(s: State, a: Action, c: nat) {
    a.DoCopy? && At(s, c, a.t) && s.lastCreator != a.t
  }

  /** A handler of c disconnects while some room lists c. */
  ghost predicate LeavesListed(s: State, a: Action, c: nat) {
    a.DoRemove? && At(s, c, a.t) && exists k :: InRoom(s, c, k)
  }

  /** The three steps after which a room may list c without its session naming it. */
  ghost predicate Disturbs(s: State, a: Action, c: nat)
    requires ChatServer.Shaped(s) && c < CS.MAX_CLIENTS
  {
    Raced(s, a, c) || LeavesListed(s, a, c) || DropsClient(s, a, c)
  }

  lemma OwnStep(s: State, a: Action, c: nat, t: nat)
    requires Inv(s) && DistinctIds(s.table) && Enabled(s, a) && c < CS.MAX_CLIENTS && At(s, c, t) && Agrees(s, c, t)
    requires Actor(s, a) == c && !a.DoRemove? && a.t == t
    ensures ChatServer.Shaped(Next(s, a)) && At(Next(s, a), c, t)
    ensures Agrees(Next(s, a), c, t) <==> !Raced(s, a, c)
  {
    match a
    case DoLeave(_) => OwnLeaveStep(s, c, t);
    case DoCreate(_, id) => OwnCreateStep(s, c, t, id);
    case DoCopy(_) => OwnCopyStep(s, c, t);
    case DoJoin(_) => OwnJoinStep(s, c, t);
    case _ => OwnLocalStep(s, a, c, t);
  }

  /** c's own disconnect: what remains is consistent exactly when no room still lists c. */
  lemma OwnRemoveStep(s: State, a: Action, c: nat)
    requires Inv(s) && Enabled(s, a) && a.DoRemove? && At(s, c, a.t) && c < CS.MAX_CLIENTS && Consistent(s, c)
    ensures ChatServer.Shaped(Next(s, a))
    ensures Consistent(Next(s, a), c) <==> forall k :: !InRoom(s, c, k)
  {
    StepKeepsShape(s, a);
    var u := Next(s, a);
    assert forall t :: !At(u, c, t) by {
      forall t | At(u, c, t) ensures false {
        assert At(s, c, t);
      }
    }
    assert !u.slots.sessions[c].active;
    assert forall k :: InRoom(u, c, k) <==> InRoom(s, c, k);
  }

  /** A dropped client is never consistent: its handler runs on without a session. */
  lemma DropStep(s: State, a: Action, c: nat)
    requires Inv(s) && Enabled(s, a) && c < CS.MAX_CLIENTS && DropsClient(s, a, c) && Consistent(s, c)
    ensures ChatServer.Shaped(Next(s, a)) && !Consistent(Next(s, a), c)
  {
    StepKeepsShape(s, a);
    CS.BroadcastKeepsValid(s.slots, CS.MAX_CLIENTS, a.sender, a.failing);
    var t :| At(s, c, t);
    assert At(Next(s, a), c, t);
  }

  lemma OtherConsistentStep(s: State, a: Action, c: nat)
    requires Inv(s) && Enabled(s, a) && FreshId(s, a) && c < CS.MAX_CLIENTS && Consistent(s, c)
    requires Actor(s, a) != c && !DropsClient(s, a, c)
    ensures ChatServer.Shaped(Next(s, a)) && Consistent(Next(s, a), c)
  {
    if a.Accept? && First(s.slots.sessions, CS.IsInactive) == c {
      AcceptStep(s, a, c);
    } else {
      OtherStepSame(s, a, c);
      OtherStepBuffer(s, a, c);
      ConsistentFrame(s, Next(s, a), c);
    }
  }

  lemma OwnConsistentStep(s: State, a: Action, c: nat)
    requires Inv(s) && DistinctIds(s.table) && Enabled(s, a) && c < CS.MAX_CLIENTS && Consistent(s, c)
    requires Actor(s, a) == c && !a.DoRemove?
    ensures ChatServer.Shaped(Next(s, a))
    ensures Consistent(Next(s, a), c) <==> !Raced(s, a, c)
  {
    assert At(s, c, a.t) && Agrees(s, c, a.t);
    OwnStep(s, a, c, a.t);
    OwnStepFrame(s, a, c, a.t);
  }

  lemma OthersExactly(s: State, a: Action, c: nat)
    requires Inv(s) && Enabled(s, a) && FreshId(s, a) && c < CS.MAX_CLIENTS && Consistent(s, c) && Actor(s, a) != c
    ensures ChatServer.Shaped(Next(s, a))
    ensures Consistent(Next(s, a), c) <==> !Disturbs(s, a, c)
  {
    if DropsClient(s, a, c) {
      DropStep(s, a, c);
    } else {
      OtherConsistentStep(s, a, c);
    }
  }

  lemma OwnExactly(s: State, a: Action, c: nat)
    requires Inv(s) && DistinctIds(s.table) && Enabled(s, a) && c < CS.MAX_CLIENTS && Consistent(s, c)
    requires Actor(s, a) == c
    ensures ChatServer.Shaped(Next(s, a))
    ensures Consistent(Next(s, a), c) <==> !Disturbs(s, a, c)
  {
    assert At(s, c, a.t);
    if a.DoRemove? {
      OwnRemoveStep(s, a, c);
    } else {
      OwnConsistentStep(s, a, c);
    }
  }

  /** One step of anybody keeps c consistent exactly when it is none of the three. */
  lemma {:induction false} ConsistentStep(s: State, a: Action, c: nat)
    requires Inv(s) && DistinctIds(s.table) && Enabled(s, a) && FreshId(s, a)
    requires c < CS.MAX_CLIENTS && Consistent(s, c)
    ensures ChatServer.Shaped(Next(s, a))
    ensures Consistent(Next(s, a), c) <==> !Disturbs(s, a, c)
  {
    if Actor(s, a) != c {
      OthersExactly(s, a, c);
    } else {
      OwnExactly(s, a, c);
    }
  }

  ghost predicate AlwaysConsistent(s: State, actions: seq<Action>, c: nat)
    requires ChatServer.Shaped(s) && Runs(s, actions) && c < CS.MAX_CLIENTS
    decreases |actions|
  {
    Consistent(s, c) &&
    (actions == [] || (StepKeepsShape(s, actions[0]); AlwaysConsistent(Next(s, actions[0]), actions[1..], c)))
  }

  ghost predicate Undisturbed(s: State, actions: seq<Action>, c: nat)
    requires ChatServer.Shaped(s) && Runs(s, actions) && c < CS.MAX_CLIENTS
    decreases |actions|
  {
    actions == [] ||
    (!Disturbs(s, actions[0], c) &&
     (StepKeepsShape(s, actions[0]); Undisturbed(Next(s, actions[0]), actions[1..], c)))
  }

  lemma {:induction false} ConsistentExactlyWhenUndisturbed(s: State, actions: seq<Action>, c: nat)
    requires Inv(s) && DistinctIds(s.table) && Runs(s, actions) && AllFresh(s, actions)
    requires c < CS.MAX_CLIENTS && Consistent(s, c)
    ensures AlwaysConsistent(s, actions, c) <==> Undisturbed(s, actions, c)
    ensures Inv(Exec(s, actions)) && DistinctIds(Exec(s, actions).table)
    ensures Undisturbed(s, actions, c) ==> Consistent(Exec(s, actions), c)
    decreases |actions|
  {
    if actions != [] {
      var u := Next(s, actions[0]);
      StepKeepsInv(s, actions[0]);
      StepKeepsDistinct(s, actions[0]);
      ConsistentStep(s, actions[0], c);
      if Consistent(u, c) {
        ConsistentExactlyWhenUndisturbed(u, actions[1..], c);
      } else {
        FreshRunKeepsDistinct(u, actions[1..]);
      }
    }
  }

  lemma {:induction false} FreshRunKeepsDistinct(s: State, actions: seq<Action>)
    requires Inv(s) && DistinctIds(s.table) && Runs(s, actions) && AllFresh(s, actions)
    ensures Inv(Exec(s, actions)) && DistinctIds(Exec(s, actions).table)
    decreases |actions|
  {
    if actions == [] {
    } else {
      StepKeepsInv(s, actions[0]);
      StepKeepsDistinct(s, actions[0]);
      FreshRunKeepsDistinct(Next(s, actions[0]), actions[1..]);
    }
  }

  lemma StartConsistent(c: nat)
    requires c < CS.MAX_CLIENTS
    ensures Inv(Start()) && DistinctIds(Start().table) && Consistent(Start(), c)
  {
    StartInv();
    assert forall t :: !At(Start(), c, t);
    assert forall k :: !InRoom(Start(), c, k);
  }

  /**
   In every run from an empty server with fresh ids, over all connections of a slot, rooms list its
   client at every moment only if its session names them or it is just entering them, if and only if
   it never copies its new room's id after somebody else has created a room, never disconnects while
   listed, and is never dropped by a failed send.
   */
  lemma {:induction false} MemberNamesRoomExactly(actions: seq<Action>, c: nat)
    requires Runs(Start(), actions) && AllFresh(Start(), actions) && c < CS.MAX_CLIENTS
    ensures AlwaysConsistent(Start(), actions, c) <==> Undisturbed(Start(), actions, c)
    ensures Undisturbed(Start(), actions, c) ==> Consistent(Exec(Start(), actions), c)
  {
    StartConsistent(c);
    ConsistentExactlyWhenUndisturbed(Start(), actions, c);
  }

  // ---------------------------------------------------------------- consequences

  lemma {:induction false} AtMostOneRoom(s: State, c: nat, j: nat, k: nat)
    requires Inv(s) && DistinctIds(s.table) && c < CS.MAX_CLIENTS && Consistent(s, c)
    requires InRoom(s, c, j) && InRoom(s, c, k)
    ensures j == k
  {
    MembersMeanActive(s.table);
    var t :| At(s, c, t);
    assert Agrees(s, c, t);
    assert s.table.rooms[j].id == s.table.rooms[k].id;
  }

  /** Whether a client can be sent something: its session is in use and the send succeeds. */
  predicate Reachable(s: State, sendable: set<int>, m: int)
    requires ChatServer.Shaped(s)
  {
    0 <= m < CS.MAX_CLIENTS && s.slots.sessions[m].active && m in sendable
  }

  /** The room a broadcast step is for: the session's, or on joining the one just entered. */
  ghost predicate SendsTo(s: State, t: nat, id: string)
    requires ChatServer.Shaped(s) && t < |s.threads|
  {
    match s.threads[t].pc
    case Chat => SessionOf(s, t).roomId == id
    case LeaveAnnounce => SessionOf(s, t).roomId == id
    case Announce(entered) => entered == id
    case _ => false
  }

  /** Every broadcast step reaches exactly the reachable others listed in the first active room it is for. */
  lemma {:induction false} DeliveredExactly(s: State, t: nat, id: string, sendable: set<int>)
    requires Inv(s) && t < |s.threads| && SendsTo(s, t, id)
    ensures forall m :: m in Delivered(s, t, sendable) <==>
              Reachable(s, sendable, m) && m != s.threads[t].slot && ListedIn(s.table, id, m)
  {
    var live := set c | c in sendable && 0 <= c < CS.MAX_CLIENTS && s.slots.sessions[c].active;
    BroadcastExactly(s.table, id, s.threads[t].slot, live);
  }

  /** A chat line typed by a client whose session names a room goes to that room, and the step changes nothing else. */
  lemma {:induction false} SayingReachesRoom(s: State, t: nat, sendable: set<int>)
    requires Inv(s) && t < |s.threads| && s.threads[t].pc == Idle && Named(SessionOf(s, t))
    ensures Enabled(s, Begin(t, Say)) && Inv(Next(s, Begin(t, Say))) && Enabled(Next(s, Begin(t, Say)), DoBroadcast(t))
    ensures forall m :: m in Delivered(Next(s, Begin(t, Say)), t, sendable) <==>
              && Reachable(s, sendable, m) && m != s.threads[t].slot
              && ListedIn(s.table, SessionOf(s, t).roomId, m)
    ensures Next(Next(s, Begin(t, Say)), DoBroadcast(t)) == s
  {
    StepKeepsInv(s, Begin(t, Say));
    var u := Next(s, Begin(t, Say));
    DeliveredExactly(u, t, SessionOf(s, t).roomId, sendable);
    assert Next(u, DoBroadcast(t)).threads == s.threads;
  }

  ghost predicate JustEntering(s: State, c: nat, id: string) {
    exists t :: At(s, c, t) &&
      (s.threads[t].pc == CopyId(id) || s.threads[t].pc == Entering(id, true) || s.threads[t].pc == Entering(id, false))
  }

  /** A room broadcast never reaches the sender, and reaches only clients naming or just entering the room. */
  lemma {:induction false} BroadcastStaysInRoom(s: State, t: nat, sendable: set<int>, m: int)
    requires Inv(s) && DistinctIds(s.table) && t < |s.threads| && m in Delivered(s, t, sendable)
    ensures 0 <= m < CS.MAX_CLIENTS && m != s.threads[t].slot && s.slots.sessions[m].active
    ensures Consistent(s, m) ==> Names(s.slots.sessions[m], Target(s, t)) || JustEntering(s, m, Target(s, t))
  {
    var id := Target(s, t);
    var k := First(s.table.rooms, HasId(id));
    var live := set c | c in sendable && 0 <= c < CS.MAX_CLIENTS && s.slots.sessions[c].active;
    assert k < MAX_ROOMS && HasId(id)(s.table.rooms[k]);
    RecipientsAre(s.table.rooms[k].clientIds, s.threads[t].slot, live);
    if Consistent(s, m) {
      assert InRoom(s, m, k);
      var u :| At(s, m, u);
      assert Agrees(s, m, u);
      assert Allowed(s.slots.sessions[m], s.threads[u].pc, id);
    }
  }

  /**
   Over every such run: c is listed in at most one room, and what a room broadcast sends it is for a
   room c names or is just entering.
   */
  lemma {:induction false} UndisturbedMeansOneRoom(actions: seq<Action>, c: nat)
    requires Runs(Start(), actions) && AllFresh(Start(), actions)
    requires c < CS.MAX_CLIENTS && Undisturbed(Start(), actions, c)
    ensures var s := Exec(Start(), actions);
            && (forall j, k :: InRoom(s, c, j) && InRoom(s, c, k) ==> j == k)
            && forall t: nat, sendable :: t < |s.threads| && c in Delivered(s, t, sendable) ==>
                 && c != s.threads[t].slot
                 && (Names(s.slots.sessions[c], Target(s, t)) || JustEntering(s, c, Target(s, t)))
  {
    var s := Exec(Start(), actions);
    MemberNamesRoomExactly(actions, c);
    StartConsistent(c);
    FreshRunKeepsDistinct(Start(), actions);
    forall j, k | InRoom(s, c, j) && InRoom(s, c, k) ensures j == k {
      AtMostOneRoom(s, c, j, k);
    }
    forall t: nat, sendable | t < |s.threads| && c in Delivered(s, t, sendable)
      ensures c != s.threads[t].slot && (Names(s.slots.sessions[c], Target(s, t)) || JustEntering(s, c, Target(s, t)))
    {
      BroadcastStaysInRoom(s, t, sendable, c);
    }
  }
}

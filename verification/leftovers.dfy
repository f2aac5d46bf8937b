/** Memberships a disconnect leaves behind, and the overlap of two room creations. */
module Leftovers {
  import opened Counting
  import opened RoomTable
  import opened ChatServer
  import opened Membership
  import CS = ClientSlots

  // ---------------------------------------------------------------- a membership nobody's session names

  /** No thread of the slot is about to write this room id into the session. */
  predicate NotEntering(pc: Pc, id: string, idBuffer: string) {
    && (pc.Entering? ==> pc.id != id)
    && (pc.CopyId? ==> idBuffer != id)
  }

  /** Client c is listed in room slot k, but its session does not hold that room's id nor is about to. */
  ghost predicate Orphan(s: State, c: nat, k: nat)
    requires ChatServer.Shaped(s) && c < CS.MAX_CLIENTS
  {
    && InRoom(s, c, k)
    && s.slots.sessions[c].roomId != s.table.rooms[k].id
    && forall t :: At(s, c, t) ==> NotEntering(s.threads[t].pc, s.table.rooms[k].id, s.idBuffer)
  }

  lemma IdLength(s: State, c: nat, k: nat)
    requires Inv(s) && InRoom(s, c, k)
    ensures s.table.rooms[k].active && |s.table.rooms[k].id| == ID_LENGTH
  {
    assert RoomOk(s.table, k);
  }

  lemma OthersLeaveOrphan(s: State, a: Action, c: nat, k: nat)
    requires Inv(s) && Enabled(s, a) && FreshId(s, a) && c < CS.MAX_CLIENTS && Orphan(s, c, k) && Actor(s, a) != c
    ensures ChatServer.Shaped(Next(s, a)) && Orphan(Next(s, a), c, k)
    ensures Next(s, a).table.rooms[k].id == s.table.rooms[k].id
  {
    StepKeepsShape(s, a);
    StepKeepsOthers(s, a);
    IdLength(s, c, k);
    var u := Next(s, a);
    assert u.slots.sessions[c].roomId == s.slots.sessions[c].roomId || u.slots.sessions[c].roomId == "" by {
      if a.DoSend? {
        CS.BroadcastKeepsValid(s.slots, CS.MAX_CLIENTS, a.sender, a.failing);
      }
    }
    OthersKeepPcs(s, a, c);
    if a.DoCreate? {
      assert u.idBuffer == s.idBuffer || u.idBuffer != s.table.rooms[k].id;
    }
    forall t | At(u, c, t) ensures NotEntering(u.threads[t].pc, u.table.rooms[k].id, u.idBuffer) {
    }
  }

  lemma OthersKeepPcs(s: State, a: Action, c: nat)
    requires ChatServer.Shaped(s) && Enabled(s, a) && c < CS.MAX_CLIENTS && Actor(s, a) != c
    ensures forall t :: At(Next(s, a), c, t) ==>
              (At(s, c, t) && Next(s, a).threads[t] == s.threads[t]) ||
              Next(s, a).threads[t].pc == Handshaking || Next(s, a).threads[t].pc == Removing
  {
  }

  /** The table part of c's own steps: the orphaned room is never the one they change. */
  lemma OwnTableKeepsOrphan(s: State, a: Action, c: nat, k: nat)
    requires Inv(s) && Enabled(s, a) && DistinctIds(s.table) && FreshId(s, a) && c < CS.MAX_CLIENTS && Orphan(s, c, k)
    requires Actor(s, a) == c
    ensures |Next(s, a).table.rooms| == MAX_ROOMS && Next(s, a).table.rooms[k] == s.table.rooms[k]
  {
    StepKeepsTable(s, a);
    IdLength(s, c, k);
    match a
    case DoLeave(t) => LeaveKeepsValid(s.table, SessionOf(s, t).roomId, c);
    case DoCreate(t, id) => CreateKeepsValid(s.table, id, s.threads[t].pc.name, c);
    case DoJoin(t) =>
      JoinKeepsValid(s.table, s.threads[t].pc.id, c);
      JoinRefused(s, t, c, k);
    case _ =>
  }

  /** Every /join of the orphaned room by its own slot is refused as "already in room". */
  lemma {:induction false} JoinRefused(s: State, t: nat, c: nat, k: nat)
    requires Inv(s) && DistinctIds(s.table) && Enabled(s, DoJoin(t))
    requires At(s, c, t) && c < CS.MAX_CLIENTS && InRoom(s, c, k)
    ensures s.threads[t].pc.id == s.table.rooms[k].id ==>
              && RoomTable.Join(s.table, s.threads[t].pc.id, c) == (s.table, Tried(k, AlreadyMember))
              && Next(s, DoJoin(t)) == Goto(s, t, Idle)
  {
    IdLength(s, c, k);
    var id := s.threads[t].pc.id;
    if id == s.table.rooms[k].id {
      assert HasId(id)(s.table.rooms[k]);
      FirstIs(s.table.rooms, HasId(id), k);
      assert s.table.rooms[k := s.table.rooms[k]] == s.table.rooms;
    }
  }

  lemma OwnRoomIdStaysAway(s: State, a: Action, c: nat, k: nat)
    requires Inv(s) && Enabled(s, a) && c < CS.MAX_CLIENTS && Orphan(s, c, k) && Actor(s, a) == c
    ensures ChatServer.Shaped(Next(s, a)) && Next(s, a).slots.sessions[c].roomId != s.table.rooms[k].id
  {
    StepKeepsShape(s, a);
    IdLength(s, c, k);
    assert At(s, c, a.t) && PcOk(s.threads[a.t].pc, s.idBuffer);
  }

  lemma OwnNextPc(s: State, a: Action, c: nat, k: nat)
    requires Inv(s) && Enabled(s, a) && DistinctIds(s.table) && FreshId(s, a) && c < CS.MAX_CLIENTS && Orphan(s, c, k)
    requires Actor(s, a) == c
    ensures a.t < |Next(s, a).threads|
    ensures NotEntering(Next(s, a).threads[a.t].pc, s.table.rooms[k].id, Next(s, a).idBuffer)
  {
    IdLength(s, c, k);
    assert At(s, c, a.t);
    if a.DoJoin? {
      JoinRefused(s, a.t, c, k);
    }
  }

  lemma OwnOtherThread(s: State, a: Action, c: nat, k: nat, u: int)
    requires Inv(s) && Enabled(s, a) && FreshId(s, a) && c < CS.MAX_CLIENTS && Orphan(s, c, k)
    requires Actor(s, a) == c && At(Next(s, a), c, u) && u != a.t
    ensures NotEntering(Next(s, a).threads[u].pc, s.table.rooms[k].id, Next(s, a).idBuffer)
  {
    IdLength(s, c, k);
    assert At(s, c, u) && Next(s, a).threads[u] == s.threads[u];
  }

  lemma OwnPcStaysAway(s: State, a: Action, c: nat, k: nat)
    requires Inv(s) && Enabled(s, a) && DistinctIds(s.table) && FreshId(s, a) && c < CS.MAX_CLIENTS && Orphan(s, c, k)
    requires Actor(s, a) == c
    ensures forall t :: At(Next(s, a), c, t) ==>
              NotEntering(Next(s, a).threads[t].pc, s.table.rooms[k].id, Next(s, a).idBuffer)
  {
    forall u | At(Next(s, a), c, u)
      ensures NotEntering(Next(s, a).threads[u].pc, s.table.rooms[k].id, Next(s, a).idBuffer)
    {
      if u == a.t {
        OwnNextPc(s, a, c, k);
      } else {
        OwnOtherThread(s, a, c, k, u);
      }
    }
  }

  /** An orphaned membership survives every step of everybody. */
  lemma OrphanStep(s: State, a: Action, c: nat, k: nat)
    requires Inv(s) && Enabled(s, a) && DistinctIds(s.table) && FreshId(s, a) && c < CS.MAX_CLIENTS && Orphan(s, c, k)
    ensures ChatServer.Shaped(Next(s, a)) && Orphan(Next(s, a), c, k)
    ensures Next(s, a).table.rooms[k].id == s.table.rooms[k].id
  {
    if Actor(s, a) != c {
      OthersLeaveOrphan(s, a, c, k);
    } else {
      OwnTableKeepsOrphan(s, a, c, k);
      OwnRoomIdStaysAway(s, a, c, k);
      OwnPcStaysAway(s, a, c, k);
    }
  }

  /**
   Membership is released only through the session that names it: with fresh ids, an orphaned member
   stays in its room, and keeps the room open, through every later run, reconnections of its slot included.
   */
  lemma {:induction false} OrphanForever(s: State, actions: seq<Action>, c: nat, k: nat)
    requires Inv(s) && DistinctIds(s.table) && Runs(s, actions) && AllFresh(s, actions)
    requires c < CS.MAX_CLIENTS && Orphan(s, c, k)
    ensures Orphan(Exec(s, actions), c, k)
    ensures Exec(s, actions).table.rooms[k].active && Exec(s, actions).table.rooms[k].id == s.table.rooms[k].id
    decreases |actions|
  {
    if actions == [] {
      IdLength(s, c, k);
    } else {
      StepKeepsInv(s, actions[0]);
      StepKeepsDistinct(s, actions[0]);
      OrphanStep(s, actions[0], c, k);
      OrphanForever(Next(s, actions[0]), actions[1..], c, k);
    }
  }

  /** No thread of slot c other than t is about to write the id of room k into the session. */
  ghost predicate NoneEntering(s: State, c: nat, k: nat, t: int)
    requires k < |s.table.rooms|
  {
    forall u :: At(s, c, u) && u != t ==> NotEntering(s.threads[u].pc, s.table.rooms[k].id, s.idBuffer)
  }

  /**
   A client that disconnects while listed in a room leaves such a membership behind, exactly when no
   other thread of its slot is just entering that room.
   */
  lemma {:induction false} DisconnectOrphans(s: State, t: nat, c: nat, k: nat)
    requires Inv(s) && Enabled(s, DoRemove(t)) && At(s, c, t) && c < CS.MAX_CLIENTS
    requires s.slots.sessions[c].active && InRoom(s, c, k)
    ensures ChatServer.Shaped(Next(s, DoRemove(t)))
    ensures Orphan(Next(s, DoRemove(t)), c, k) <==> NoneEntering(s, c, k, t)
  {
    StepKeepsShape(s, DoRemove(t));
    IdLength(s, c, k);
    var u := Next(s, DoRemove(t));
    assert InRoom(u, c, k);
    assert forall i :: At(u, c, i) <==> At(s, c, i) && i != t;
    assert forall i :: At(s, c, i) && i != t ==> u.threads[i] == s.threads[i];
  }

  /** So does a client dropped by a failed send, exactly when no thread of its slot is just entering that room. */
  lemma {:induction false} DropOrphans(s: State, sender: int, failing: set<nat>, c: nat, k: nat)
    requires Inv(s) && c < CS.MAX_CLIENTS && InRoom(s, c, k) && CS.Drops(s.slots, c, sender, failing)
    ensures ChatServer.Shaped(Next(s, DoSend(sender, failing)))
    ensures Orphan(Next(s, DoSend(sender, failing)), c, k) <==> NoneEntering(s, c, k, -1)
  {
    StepKeepsShape(s, DoSend(sender, failing));
    IdLength(s, c, k);
    CS.BroadcastKeepsValid(s.slots, CS.MAX_CLIENTS, sender, failing);
    var u := Next(s, DoSend(sender, failing));
    assert InRoom(u, c, k);
    assert forall i :: At(u, c, i) <==> At(s, c, i);
  }

  /** Whoever later connects on the orphaned slot is sent the room's messages without having joined it. */
  lemma {:induction false} OrphanOverhears(s: State, t: nat, sendable: set<int>, c: nat, k: nat)
    requires Inv(s) && DistinctIds(s.table) && c < CS.MAX_CLIENTS && Orphan(s, c, k)
    requires t < |s.threads| && s.threads[t].slot != c && Target(s, t) == s.table.rooms[k].id
    requires c in sendable && s.slots.sessions[c].active
    ensures c in Delivered(s, t, sendable) && !Names(s.slots.sessions[c], Target(s, t))
  {
    IdLength(s, c, k);
    var id := Target(s, t);
    var live := set d | d in sendable && 0 <= d < CS.MAX_CLIENTS && s.slots.sessions[d].active;
    assert HasId(id)(s.table.rooms[k]);
    FirstIs(s.table.rooms, HasId(id), k);
    RecipientsAre(s.table.rooms[k].clientIds, s.threads[t].slot, live);
  }

  // ---------------------------------------------------------------- two overlapping creations

  lemma Prepend(s: State, a: Action, rest: seq<Action>)
    requires ChatServer.Shaped(s) && Enabled(s, a) && FreshId(s, a) && ChatServer.Shaped(Next(s, a))
    requires Runs(Next(s, a), rest) && AllFresh(Next(s, a), rest)
    ensures Runs(s, [a] + rest) && AllFresh(s, [a] + rest) && Exec(s, [a] + rest) == Exec(Next(s, a), rest)
  {
    assert ([a] + rest)[1..] == rest;
  }

  /** Both threads are about to create a room, and two slots are left. */
  ghost predicate BothCreating(s: State, t: nat, u: nat) {
    && t < |s.threads| && u < |s.threads| && s.threads[t].slot != s.threads[u].slot
    && s.threads[t].pc.CreateRoom? && s.threads[u].pc.CreateRoom?
    && s.table.count + 2 <= MAX_ROOMS
  }

  ghost predicate Unused(t: Table, id: string) {
    |id| == ID_LENGTH && forall i :: 0 <= i < |t.rooms| && t.rooms[i].active ==> t.rooms[i].id != id
  }

  /** A creator copies the buffer and writes it into its session: where it then stands. */
  lemma FinishCreation(s: State, t: nat, c: nat)
    requires Inv(s) && At(s, c, t) && s.threads[t].pc.CopyId?
    ensures Enabled(s, DoCopy(t)) && Inv(Next(s, DoCopy(t))) && Enabled(Next(s, DoCopy(t)), DoEnter(t))
    ensures var e := Next(Next(s, DoCopy(t)), DoEnter(t));
            && Inv(e) && e.table == s.table && e.threads == s.threads[t := Thread(c, Idle)]
            && c < CS.MAX_CLIENTS && e.slots.sessions[c].active == s.slots.sessions[c].active
            && Names(e.slots.sessions[c], s.idBuffer)
  {
    StepKeepsInv(s, DoCopy(t));
    StepKeepsInv(Next(s, DoCopy(t)), DoEnter(t));
    assert PcOk(s.threads[t].pc, s.idBuffer);
  }

  /** A second creation between the first one's creation and its copy leaves its own id in the buffer. */
  lemma SecondCreate(s: State, t: nat, u: nat, k: nat, x: string, y: string)
    requires Inv(s) && t < |s.threads| && u < |s.threads| && s.threads[t].slot != s.threads[u].slot
    requires s.threads[t].pc == CopyId(x) && s.threads[u].pc.CreateRoom?
    requires s.table.count < MAX_ROOMS && |y| == ID_LENGTH
    requires InRoom(s, s.threads[t].slot, k) && s.table.rooms[k].id == x
    ensures Enabled(s, DoCreate(u, y))
    ensures var e := Next(s, DoCreate(u, y));
            && Inv(e) && At(e, s.threads[t].slot, t) && e.threads[t].pc == CopyId(x) && e.idBuffer == y
            && InRoom(e, s.threads[t].slot, k) && e.table.rooms[k].id == x
  {
    StepKeepsInv(s, DoCreate(u, y));
    StepKeepsOthers(s, DoCreate(u, y));
    var k2 := CreateSucceeds(s, u, y);
  }

  lemma BothCreate(s: State, t: nat, u: nat, x: string, y: string) returns (k: nat)
    requires Inv(s) && BothCreating(s, t, u) && Unused(s.table, x) && Unused(s.table, y) && x != y
    ensures Enabled(s, DoCreate(t, x)) && Inv(Next(s, DoCreate(t, x)))
    ensures var s1 := Next(s, DoCreate(t, x));
            && Enabled(s1, DoCreate(u, y)) && FreshId(s1, DoCreate(u, y))
            && var s2 := Next(s1, DoCreate(u, y));
            && Inv(s2) && At(s2, s.threads[t].slot, t) && s2.threads[t].pc == CopyId(x) && s2.idBuffer == y
            && InRoom(s2, s.threads[t].slot, k) && s2.table.rooms[k].id == x
  {
    StepKeepsInv(s, DoCreate(t, x));
    k := CreateSucceeds(s, t, x);
    SecondCreate(Next(s, DoCreate(t, x)), t, u, k, x, y);
  }

  /**
   Whenever two clients are both about to create a room and two slots are left, the schedule
   "create, create, copy, enter" leaves the first client listed in its own room x while its session
   names the second client's room y: the consistency of the first client is broken.
   */
  lemma {:induction false} OverlappingCreations(s: State, t: nat, u: nat, x: string, y: string)
    returns (k: nat, actions: seq<Action>)
    requires Inv(s) && BothCreating(s, t, u) && Unused(s.table, x) && Unused(s.table, y) && x != y
    ensures Runs(s, actions) && AllFresh(s, actions) && s.threads[t].slot < CS.MAX_CLIENTS
    ensures var c, e := s.threads[t].slot, Exec(s, actions);
            InRoom(e, c, k) && e.table.rooms[k].id == x && Names(e.slots.sessions[c], y) && !Consistent(e, c)
  {
    var c := s.threads[t].slot;
    k := BothCreate(s, t, u, x, y);
    var s1 := Next(s, DoCreate(t, x));
    var s2 := Next(s1, DoCreate(u, y));
    FinishCreation(s2, t, c);
    var s3 := Next(s2, DoCopy(t));
    var e := Next(s3, DoEnter(t));
    assert InRoom(e, c, k) && At(e, c, t) && !Agrees(e, c, t);
    var rest := [DoCopy(t)] + [DoEnter(t)];
    Prepend(s3, DoEnter(t), []);
    Prepend(s2, DoCopy(t), [DoEnter(t)]);
    Prepend(s1, DoCreate(u, y), rest);
    Prepend(s, DoCreate(t, x), [DoCreate(u, y)] + rest);
    actions := [DoCreate(t, x)] + ([DoCreate(u, y)] + rest);
  }

  /** With a slot left, creation makes a room with the given id holding its creator. */
  lemma CreateSucceeds(s: State, t: nat, id: string) returns (k: nat)
    requires Inv(s) && Enabled(s, DoCreate(t, id)) && s.table.count < MAX_ROOMS
    ensures var u := Next(s, DoCreate(t, id));
            && ChatServer.Shaped(u) && u.table.count == s.table.count + 1
            && u.threads == s.threads[t := Thread(s.threads[t].slot, CopyId(id))]
            && u.idBuffer == id && u.slots == s.slots
            && InRoom(u, s.threads[t].slot, k) && u.table.rooms[k].id == id
            && forall i :: 0 <= i < MAX_ROOMS && u.table.rooms[i].active ==>
                 u.table.rooms[i].id == id || (s.table.rooms[i].active && u.table.rooms[i].id == s.table.rooms[i].id)
  {
    StepKeepsShape(s, DoCreate(t, id));
    CreateKeepsValid(s.table, id, s.threads[t].pc.name, s.threads[t].slot);
    k := RoomTable.Create(s.table, id, s.threads[t].pc.name, s.threads[t].slot).1.slot;
  }

  /** One client connects on slot n, shakes hands and asks for a room, undisturbed. */
  function WithCreator(s: State, n: nat, name: string): State
    requires ChatServer.Shaped(s) && n < CS.MAX_CLIENTS
  {
    var slots := CS.AddClient(s.slots, true).0;
    s.(threads := s.threads + [Thread(n, CreateRoom(name))],
    slots := slots.(sessions := s.slots.sessions[n := CS.Session(true, CS.InLobby, "")]))
  }

  lemma CreatorArrives(s: State, n: nat, name: string)
    requires Inv(s) && n == First(s.slots.sessions, CS.IsInactive) < CS.MAX_CLIENTS && 1 <= |name| < NAME_SIZE
    ensures var t, u := |s.threads|, WithCreator(s, n, name);
            && var s1 := Next(s, Accept(true, true));
            && Inv(s1) && Enabled(s1, Shake(t, true))
            && var s2 := Next(s1, Shake(t, true));
            && Inv(s2) && Enabled(s2, Begin(t, Create(name)))
            && Next(s2, Begin(t, Create(name))) == u && Inv(u)
  {
    var t := |s.threads|;
    var a, b, c := Accept(true, true), Shake(t, true), Begin(t, Create(name));
    var s1 := Next(s, a);
    StepKeepsInv(s, a);
    assert s1.threads[t] == Thread(n, Handshaking);
    var s2 := Next(s1, b);
    StepKeepsInv(s1, b);
    var s3 := Next(s2, c);
    StepKeepsInv(s2, c);
    assert s3.slots.sessions == WithCreator(s, n, name).slots.sessions;
    assert s3.threads == WithCreator(s, n, name).threads;
  }

  lemma CreatorArrivesThen(s: State, n: nat, name: string, rest: seq<Action>) returns (actions: seq<Action>)
    requires Inv(s) && n == First(s.slots.sessions, CS.IsInactive) < CS.MAX_CLIENTS && 1 <= |name| < NAME_SIZE
    requires Inv(WithCreator(s, n, name))
    requires Runs(WithCreator(s, n, name), rest) && AllFresh(WithCreator(s, n, name), rest)
    ensures Runs(s, actions) && AllFresh(s, actions) && Exec(s, actions) == Exec(WithCreator(s, n, name), rest)
  {
    CreatorArrives(s, n, name);
    var t := |s.threads|;
    var a, b, c := Accept(true, true), Shake(t, true), Begin(t, Create(name));
    var s1 := Next(s, a);
    var s2 := Next(s1, b);
    Prepend(s2, c, rest);
    Prepend(s1, b, [c] + rest);
    Prepend(s, a, [b] + ([c] + rest));
    actions := [a] + ([b] + ([c] + rest));
  }

  lemma EmptyUnused(id: string)
    requires |id| == ID_LENGTH
    ensures Unused(Empty(), id)
  {
  }

  lemma FirstCreatorReady()
    ensures Inv(Start()) && First(Start().slots.sessions, CS.IsInactive) == 0
    ensures var s := WithCreator(Start(), 0, "a"); Inv(s) && First(s.slots.sessions, CS.IsInactive) == 1
  {
    StartInv();
    FirstIs(Start().slots.sessions, CS.IsInactive, 0);
    CreatorArrives(Start(), 0, "a");
    FirstIs(WithCreator(Start(), 0, "a").slots.sessions, CS.IsInactive, 1);
  }

  lemma SecondCreatorReady(s: State)
    requires Inv(s) && First(s.slots.sessions, CS.IsInactive) == 1
    requires s.threads == [Thread(0, CreateRoom("a"))] && s.table == Empty()
    ensures var u := WithCreator(s, 1, "b"); Inv(u) && BothCreating(u, 0, 1) && u.table == Empty()
  {
    CreatorArrives(s, 1, "b");
  }

  /** The overlap can really happen: a run from the empty server ends with two clients about to create. */
  lemma {:induction false} TwoCreatorsReachable(x: string, y: string) returns (actions: seq<Action>)
    requires |x| == |y| == ID_LENGTH
    ensures Runs(Start(), actions) && AllFresh(Start(), actions)
    ensures var s := Exec(Start(), actions);
            Inv(s) && BothCreating(s, 0, 1) && Unused(s.table, x) && Unused(s.table, y)
  {
    FirstCreatorReady();
    var s := WithCreator(Start(), 0, "a");
    SecondCreatorReady(s);
    actions := CreatorArrivesThen(s, 1, "b", []);
    actions := CreatorArrivesThen(Start(), 0, "a", actions);
    EmptyUnused(x);
    EmptyUnused(y);
  }

  // ---------------------------------------------------------------- an orphan from the empty server

  /** Thread t is the only one serving slot c. */
  ghost predicate Alone(s: State, c: nat, t: int) {
    forall u :: At(s, c, u) ==> u == t
  }

  lemma AloneStays(s: State, e: State, c: nat, t: nat, pc: Pc)
    requires Alone(s, c, t) && t < |s.threads| && e.threads == s.threads[t := Thread(c, pc)]
    ensures Alone(e, c, t)
  {
    forall u | At(e, c, u) ensures u == t {
      assert u != t ==> At(s, c, u);
    }
  }

  /** The only handler of a listed, active slot quits: what is left is an orphaned membership. */
  lemma QuitLeavesOrphan(s: State, t: nat, c: nat, k: nat) returns (actions: seq<Action>)
    requires Inv(s) && At(s, c, t) && s.threads[t].pc == Idle && Alone(s, c, t)
    requires c < CS.MAX_CLIENTS && s.slots.sessions[c].active && InRoom(s, c, k)
    ensures Runs(s, actions) && AllFresh(s, actions)
    ensures var e := Exec(s, actions); Inv(e) && Orphan(e, c, k) && e.table == s.table
  {
    var a, b := Begin(t, Quit), DoRemove(t);
    StepKeepsInv(s, a);
    var s1 := Next(s, a);
    StepKeepsInv(s1, b);
    AloneStays(s, s1, c, t, Removing);
    assert InRoom(s1, c, k);
    DisconnectOrphans(s1, t, c, k);
    Prepend(s1, b, []);
    Prepend(s, a, [b]);
    actions := [a] + [b];
  }

  lemma CreatorLeavesOrphan(s: State, t: nat, id: string) returns (k: nat, actions: seq<Action>)
    requires Inv(s) && t < |s.threads| && s.threads[t].pc.CreateRoom? && SessionOf(s, t).active
    requires s.table.count < MAX_ROOMS && Unused(s.table, id)
    requires Alone(s, s.threads[t].slot, t)
    ensures Runs(s, actions) && AllFresh(s, actions) && s.threads[t].slot < CS.MAX_CLIENTS
    ensures var e := Exec(s, actions); Inv(e) && Orphan(e, s.threads[t].slot, k) && e.table.rooms[k].id == id
  {
    var a, b, d := DoCreate(t, id), DoCopy(t), DoEnter(t);
    var c := s.threads[t].slot;
    k := CreateSucceeds(s, t, id);
    StepKeepsInv(s, a);
    var s1 := Next(s, a);
    FinishCreation(s1, t, c);
    var s2 := Next(s1, b);
    var s3 := Next(s2, d);
    AloneStays(s, s3, c, t, Idle);
    assert InRoom(s3, c, k);
    var rest := QuitLeavesOrphan(s3, t, c, k);
    Prepend(s2, d, rest);
    Prepend(s1, b, [d] + rest);
    Prepend(s, a, [b] + ([d] + rest));
    actions := [a] + ([b] + ([d] + rest));
  }

  /** An orphaned membership is reached from the empty server by one client alone: connect, create, quit. */
  lemma {:induction false} OrphanReachable(id: string) returns (k: nat, actions: seq<Action>)
    requires |id| == ID_LENGTH
    ensures Runs(Start(), actions) && AllFresh(Start(), actions)
    ensures var e := Exec(Start(), actions); Inv(e) && Orphan(e, 0, k) && e.table.rooms[k].id == id
  {
    FirstCreatorReady();
    EmptyUnused(id);
    var s := WithCreator(Start(), 0, "a");
    k, actions := CreatorLeavesOrphan(s, 0, id);
    actions := CreatorArrivesThen(Start(), 0, "a", actions);
  }
}

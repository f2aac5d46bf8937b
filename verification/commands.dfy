/** What each command does from beginning to end when no other thread gets in between. */
module Commands {
  import opened Text
  import opened RoomTable
  import opened RoomResults
  import opened ChatServer
  import opened Membership
  import CS = ClientSlots

  /** Thread t is waiting for a command. */
  predicate Ready(s: State, t: nat)
    requires ChatServer.Shaped(s)
  {
    t < |s.threads| && s.threads[t].pc == Idle
  }

  /** The state with another room table, and another session for thread t's client. */
  function Changed(s: State, t: nat, table: Table, x: Session): State
    requires ChatServer.Shaped(s) && t < |s.threads|
  {
    s.(table := table, slots := s.slots.(sessions := s.slots.sessions[s.threads[t].slot := x]))
  }

  /** The table once the client has left the room its session names, if any. */
  function Departed(s: State, t: nat): Table
    requires ChatServer.Shaped(s) && t < |s.threads|
  {
    var x := SessionOf(s, t);
    if Named(x) then RoomTable.Leave(s.table, x.roomId, s.threads[t].slot).0 else s.table
  }

  // ---------------------------------------------------------------- leaving a room first

  /** From a command that enters another room: the old room is left before the new one is looked at. */
  lemma DepartFirst(s: State, t: nat, c: Command) returns (actions: seq<Action>)
    requires Inv(s) && Ready(s, t)
    requires match c case Create(name) => 0 < |name| < NAME_SIZE case Join(id) => |id| == ID_LENGTH case _ => false
    ensures Runs(s, actions)
    ensures Exec(s, actions)
         == Goto(s.(table := Departed(s, t)), t, if c.Create? then CreateRoom(c.name) else JoinRoom(c.id))
    ensures Inv(Exec(s, actions))
  {
    var a, b := Begin(t, c), DoLeave(t);
    StepKeepsInv(s, a);
    var s1 := Next(s, a);
    PrependRun(s, a, []);
    actions := [a];
    if Named(SessionOf(s, t)) {
      StepKeepsInv(s1, b);
      PrependRun(s1, b, []);
      PrependRun(s, a, [b]);
      actions := [a] + [b];
      var pc := if c.Create? then CreateRoom(c.name) else JoinRoom(c.id);
      assert Next(s1, b).threads == s.threads[t := s.threads[t].(pc := pc)];
    }
  }

  lemma RunSplits(s: State, a: Action, first: seq<Action>, rest: seq<Action>)
    requires ChatServer.Shaped(s) && Enabled(s, a) && ChatServer.Shaped(Next(s, a))
    requires Runs(Next(s, a), first + rest)
    ensures Runs(s, [a] + first + rest) && Exec(s, [a] + first + rest) == Exec(Next(s, a), first + rest)
  {
    assert [a] + first + rest == [a] + (first + rest);
    PrependRun(s, a, first + rest);
  }

  lemma {:induction false} AppendRun(s: State, first: seq<Action>, rest: seq<Action>)
    requires ChatServer.Shaped(s) && Runs(s, first) && Runs(Exec(s, first), rest)
    ensures Runs(s, first + rest) && Exec(s, first + rest) == Exec(Exec(s, first), rest)
    decreases |first|
  {
    if first == [] {
      assert first + rest == rest;
    } else {
      StepKeepsShape(s, first[0]);
      AppendRun(Next(s, first[0]), first[1..], rest);
      RunSplits(s, first[0], first[1..], rest);
      assert [first[0]] + first[1..] == first;
    }
  }

  // ---------------------------------------------------------------- /join

  /** The id is written into the session, and announced if it was a join. */
  lemma EnterTail(s: State, t: nat, id: string, announce: bool) returns (actions: seq<Action>)
    requires Inv(s) && t < |s.threads| && s.threads[t].pc == Entering(id, announce) && |id| == ID_LENGTH
    ensures Runs(s, actions)
    ensures Exec(s, actions)
         == Goto(Changed(s, t, s.table, SessionOf(s, t).(state := CS.InRoom, roomId := id)), t, Idle)
  {
    var a, b := DoEnter(t), DoBroadcast(t);
    StepKeepsInv(s, a);
    var s1 := Next(s, a);
    if announce {
      StepKeepsInv(s1, b);
      PrependRun(s1, b, []);
      PrependRun(s, a, [b]);
      actions := [a] + [b];
    } else {
      PrependRun(s, a, []);
      actions := [a];
    }
  }

  /** The steps from the join critical section on. */
  lemma JoinTail(s: State, t: nat, id: string) returns (actions: seq<Action>)
    requires Inv(s) && t < |s.threads| && s.threads[t].pc == JoinRoom(id) && |id| == ID_LENGTH
    ensures Runs(s, actions)
    ensures var (table, out) := RoomTable.Join(s.table, id, s.threads[t].slot);
            Exec(s, actions) == Goto(if out.Tried? && out.outcome == Added
                                     then Changed(s, t, table, SessionOf(s, t).(state := CS.InRoom, roomId := id))
                                     else s, t, Idle)
  {
    var a := DoJoin(t);
    var (table, out) := RoomTable.Join(s.table, id, s.threads[t].slot);
    JoinKeepsValid(s.table, id, s.threads[t].slot);
    StepKeepsInv(s, a);
    actions := [];
    if out.Tried? && out.outcome == Added {
      actions := EnterTail(Next(s, a), t, id, true);
    }
    PrependRun(s, a, actions);
    actions := [a] + actions;
  }

  /**
   An undisturbed /join first leaves the room the session names.  If the join then succeeds the session
   names the new room; if it fails the old room is left all the same and the session still names it.
   */
  lemma {:induction false} JoinCommand(s: State, t: nat, id: string) returns (actions: seq<Action>)
    requires Inv(s) && Ready(s, t) && |id| == ID_LENGTH
    ensures Runs(s, actions)
    ensures var (table, out) := RoomTable.Join(Departed(s, t), id, s.threads[t].slot);
            Exec(s, actions) == if out.Tried? && out.outcome == Added
                                then Changed(s, t, table, SessionOf(s, t).(state := CS.InRoom, roomId := id))
                                else s.(table := Departed(s, t))
  {
    var first := DepartFirst(s, t, Join(id));
    var m := Exec(s, first);
    var rest := JoinTail(m, t, id);
    AppendRun(s, first, rest);
    actions := first + rest;
    assert Exec(s, actions).threads == s.threads;
  }

  // ---------------------------------------------------------------- /create

  lemma CreateTail(s: State, t: nat, name: string, id: string) returns (actions: seq<Action>)
    requires Inv(s) && t < |s.threads| && s.threads[t].pc == CreateRoom(name) && |id| == ID_LENGTH
    ensures Runs(s, actions)
    ensures var (table, out) := RoomTable.Create(s.table, id, name, s.threads[t].slot);
            Exec(s, actions) == Goto(if out.Created?
                                     then Changed(s, t, table, SessionOf(s, t).(state := CS.InRoom, roomId := id))
                                          .(idBuffer := id, lastCreator := t)
                                     else s, t, Idle)
  {
    var a, b := DoCreate(t, id), DoCopy(t);
    StepKeepsInv(s, a);
    var s1 := Next(s, a);
    actions := [];
    if RoomTable.Create(s.table, id, name, s.threads[t].slot).1.Created? {
      StepKeepsInv(s1, b);
      actions := EnterTail(Next(s1, b), t, id, false);
      PrependRun(s1, b, actions);
      actions := [b] + actions;
    }
    PrependRun(s, a, actions);
    actions := [a] + actions;
  }

  /** The same for /create with the id the server generates. */
  lemma {:induction false} CreateCommand(s: State, t: nat, name: string, id: string) returns (actions: seq<Action>)
    requires Inv(s) && Ready(s, t) && 0 < |name| < NAME_SIZE && |id| == ID_LENGTH
    ensures Runs(s, actions)
    ensures var (table, out) := RoomTable.Create(Departed(s, t), id, name, s.threads[t].slot);
            Exec(s, actions) == if out.Created?
                                then Changed(s, t, table, SessionOf(s, t).(state := CS.InRoom, roomId := id))
                                     .(idBuffer := id, lastCreator := t)
                                else s.(table := Departed(s, t))
  {
    var first := DepartFirst(s, t, Create(name));
    var m := Exec(s, first);
    var rest := CreateTail(m, t, name, id);
    AppendRun(s, first, rest);
    actions := first + rest;
    assert Exec(s, actions).threads == s.threads;
  }

  // ---------------------------------------------------------------- /leave, /quit and refusals

  /** The steps of /leave after its announcement. */
  lemma LeaveTail(s: State, t: nat) returns (actions: seq<Action>)
    requires Inv(s) && t < |s.threads| && s.threads[t].pc == LeaveRoom
    ensures Runs(s, actions)
    ensures var x := SessionOf(s, t);
            Exec(s, actions) == Goto(Changed(s, t, RoomTable.Leave(s.table, x.roomId, s.threads[t].slot).0,
                                             x.(state := CS.InLobby, roomId := "")), t, Idle)
  {
    var a, b := DoLeave(t), DoClear(t);
    StepKeepsInv(s, a);
    StepKeepsInv(Next(s, a), b);
    PrependRun(Next(s, a), b, []);
    PrependRun(s, a, [b]);
    actions := [a] + [b];
  }

  /** An undisturbed /leave ends in the lobby, with no room named and the named room left. */
  lemma {:induction false} LeaveCommand(s: State, t: nat) returns (actions: seq<Action>)
    requires Inv(s) && Ready(s, t) && Named(SessionOf(s, t))
    ensures Runs(s, actions)
    ensures Exec(s, actions)
         == Changed(s, t, Departed(s, t), SessionOf(s, t).(state := CS.InLobby, roomId := ""))
  {
    var a, b := Begin(t, Leave), DoBroadcast(t);
    StepKeepsInv(s, a);
    var s1 := Next(s, a);
    StepKeepsInv(s1, b);
    actions := LeaveTail(Next(s1, b), t);
    PrependRun(s1, b, actions);
    PrependRun(s, a, [b] + actions);
    actions := [a] + ([b] + actions);
    assert Exec(s, actions).threads == s.threads;
  }

  /** Leaving takes a consistent client off every member list. */
  lemma {:induction false} DepartedFromAll(s: State, t: nat)
    requires Inv(s) && DistinctIds(s.table) && Ready(s, t) && Consistent(s, s.threads[t].slot)
    ensures forall k :: 0 <= k < |Departed(s, t).rooms| ==> s.threads[t].slot !in Departed(s, t).rooms[k].clientIds
  {
    var c, x := s.threads[t].slot, SessionOf(s, t);
    assert At(s, c, t) && Agrees(s, c, t);
    LeaveKeepsValid(s.table, x.roomId, c);
    LeaveExactly(s.table, x.roomId, c);
    SearchFinds(s.table, x.roomId);
    MembersMeanActive(s.table);
    forall k | 0 <= k < |Departed(s, t).rooms| ensures c !in Departed(s, t).rooms[k].clientIds {
      if InRoom(s, c, k) {
        assert Bears(s.table.rooms[k], x.roomId);
      }
    }
  }

  /**
   So after a failed /join or /create a consistent client is in no room although its session still names
   the old one: being named does not imply being a member.
   */
  lemma {:induction false} FailedEntryLeavesNameBehind(s: State, t: nat, id: string) returns (actions: seq<Action>)
    requires Inv(s) && DistinctIds(s.table) && Ready(s, t) && Consistent(s, s.threads[t].slot)
    requires Named(SessionOf(s, t)) && |id| == ID_LENGTH && NoneBears(Departed(s, t), id)
    ensures Runs(s, actions)
    ensures var e, c := Exec(s, actions), s.threads[t].slot;
            && e.threads == s.threads && e.slots == s.slots && Names(e.slots.sessions[c], SessionOf(s, t).roomId)
            && forall k :: !InRoom(e, c, k)
  {
    LeaveKeepsValid(s.table, SessionOf(s, t).roomId, s.threads[t].slot);
    JoinExactly(Departed(s, t), id, s.threads[t].slot);
    DepartedFromAll(s, t);
    actions := JoinCommand(s, t, id);
  }

  /** Commands with unfit arguments, and /leave and chat outside a room, change nothing. */
  lemma {:induction false} RefusedCommands(s: State, t: nat, c: Command)
    requires Inv(s) && Ready(s, t)
    requires match c
             case Create(name) => |name| == 0 || |name| >= NAME_SIZE
             case Join(id) => |id| != ID_LENGTH
             case Leave => !Named(SessionOf(s, t))
             case Say => !Named(SessionOf(s, t))
             case Quit => false
    ensures Next(s, Begin(t, c)) == s
  {
    assert Next(s, Begin(t, c)).threads == s.threads;
  }

  /** Quitting frees the slot and its context, ends the thread and leaves the rooms as they are. */
  lemma {:induction false} QuitCommand(s: State, t: nat) returns (actions: seq<Action>)
    requires Inv(s) && Ready(s, t)
    ensures Runs(s, actions)
    ensures Exec(s, actions)
         == s.(slots := CS.RemoveClient(s.slots, s.threads[t].slot),
               threads := s.threads[t := Thread(s.threads[t].slot, Exited)])
  {
    var a, b := Begin(t, Quit), DoRemove(t);
    StepKeepsInv(s, a);
    StepKeepsInv(Next(s, a), b);
    PrependRun(Next(s, a), b, []);
    PrependRun(s, a, [b]);
    actions := [a] + [b];
    assert Exec(s, actions).threads == s.threads[t := Thread(s.threads[t].slot, Exited)];
  }

  // ---------------------------------------------------------------- connecting

  /** A granted connection gets the lowest inactive slot and a new handler; after the handshake it is in the lobby. */
  lemma {:induction false} ConnectCommand(s: State, i: nat) returns (actions: seq<Action>)
    requires Inv(s) && i < CS.MAX_CLIENTS && !s.slots.sessions[i].active
    requires forall j :: 0 <= j < i ==> s.slots.sessions[j].active
    ensures Runs(s, actions)
    ensures var e := Exec(s, actions);
            && e.threads == s.threads + [Thread(i, Idle)] && e.table == s.table
            && e.slots.sessions == s.slots.sessions[i := CS.Session(true, CS.InLobby, "")]
            && e.slots.contexts == s.slots.contexts[i := true] && e.slots.clientCount == s.slots.clientCount + 1
  {
    var t := |s.threads|;
    var a, b := Accept(true, true), Shake(t, true);
    CS.AddTakesLowest(s.slots, true, i);
    StepKeepsInv(s, a);
    var s1 := Next(s, a);
    assert s1.threads == s.threads + [Thread(i, Handshaking)];
    StepKeepsInv(s1, b);
    PrependRun(s1, b, []);
    PrependRun(s, a, [b]);
    actions := [a] + [b];
    assert Next(s1, b).threads == s.threads + [Thread(i, Idle)];
    assert Next(s1, b).slots.sessions == s.slots.sessions[i := CS.Session(true, CS.InLobby, "")];
  }
}

/**
 The server's handler threads, interleaved.  One action is one critical section or one stretch of
 code touching only the thread's own session; every thread has a program counter.  Each accepted
 connection starts a thread, and a slot may be reused while an earlier thread of it is still running.
 */
module ChatServer {
  import opened Text
  import opened Counting
  import opened RoomTable
  import CS = ClientSlots
  type Session = CS.Session

  datatype Pc =
    | Handshaking
    | Idle
    | CreateLeave(name: string)             // about to leave the old room before creating
    | CreateRoom(name: string)              // about to enter the create critical section
    | CopyId(own: string)                   // room made, id not yet copied out of the shared static buffer
    | Entering(id: string, announce: bool)  // about to write the id into the session
    | JoinLeave(id: string)
    | JoinRoom(id: string)
    | Announce(id: string)
    | LeaveAnnounce
    | LeaveRoom
    | LeaveClear
    | Chat
    | Removing
    | Exited

  datatype Thread = Thread(slot: nat, pc: Pc)

  /**
   idBuffer is the static buffer of room_generate_id.  The last field is a history variable: the
   thread that last created a room.
   */
  datatype State = State(table: Table, slots: CS.Slots, threads: seq<Thread>, idBuffer: string, lastCreator: int)

  function Start(): State {
    State(Empty(), CS.NoClients(), [], "", -1)
  }

  datatype Command = Create(name: string) | Join(id: string) | Leave | Say | Quit

  datatype Action =
    | Accept(granted: bool, spawned: bool)
    | Shake(t: nat, ok: bool)
    | Begin(t: nat, command: Command)
    | DoLeave(t: nat)
    | DoCreate(t: nat, id: string)
    | DoCopy(t: nat)
    | DoEnter(t: nat)
    | DoJoin(t: nat)
    | DoBroadcast(t: nat)
    | DoClear(t: nat)
    | DoRemove(t: nat)
    | DoSend(sender: int, failing: set<nat>)

  // ---------------------------------------------------------------- the transition function

  predicate Named(x: Session) {
    x.state == CS.InRoom && |x.roomId| > 0
  }

  predicate Names(x: Session, id: string) {
    Named(x) && x.roomId == id
  }

  predicate Shaped(s: State) {
    CS.Shaped(s.slots) && forall t :: 0 <= t < |s.threads| ==> s.threads[t].slot < CS.MAX_CLIENTS
  }

  function SessionOf(s: State, t: nat): Session
    requires Shaped(s) && t < |s.threads|
  {
    s.slots.sessions[s.threads[t].slot]
  }

  predicate Enabled(s: State, a: Action) {
    match a
    case Accept(_, _) => true
    case DoSend(_, _) => true
    case Shake(t, _) => t < |s.threads| && s.threads[t].pc.Handshaking?
    case Begin(t, _) => t < |s.threads| && s.threads[t].pc.Idle?
    case DoLeave(t) =>
      t < |s.threads| && (s.threads[t].pc.CreateLeave? || s.threads[t].pc.JoinLeave? || s.threads[t].pc.LeaveRoom?)
    case DoCreate(t, id) => t < |s.threads| && s.threads[t].pc.CreateRoom? && |id| == ID_LENGTH
    case DoCopy(t) => t < |s.threads| && s.threads[t].pc.CopyId?
    case DoEnter(t) => t < |s.threads| && s.threads[t].pc.Entering?
    case DoJoin(t) => t < |s.threads| && s.threads[t].pc.JoinRoom?
    case DoBroadcast(t) =>
      t < |s.threads| && (s.threads[t].pc.Chat? || s.threads[t].pc.LeaveAnnounce? || s.threads[t].pc.Announce?)
    case DoClear(t) => t < |s.threads| && s.threads[t].pc.LeaveClear?
    case DoRemove(t) => t < |s.threads| && s.threads[t].pc.Removing?
  }

  function Goto(s: State, t: nat, pc: Pc): State
    requires t < |s.threads|
  {
    s.(threads := s.threads[t := s.threads[t].(pc := pc)])
  }

  function WithSession(s: State, t: nat, x: Session): State
    requires Shaped(s) && t < |s.threads|
  {
    s.(slots := s.slots.(sessions := s.slots.sessions[s.threads[t].slot := x]))
  }

  /** Where a command goes after its argument checks and the test for a current room. */
  function Dispatched(x: Session, c: Command): Pc {
    match c
    case Create(name) =>
      if |name| == 0 || |name| >= NAME_SIZE then Idle else if Named(x) then CreateLeave(name) else CreateRoom(name)
    case Join(id) => if |id| != ID_LENGTH then Idle else if Named(x) then JoinLeave(id) else JoinRoom(id)
    case Leave => if Named(x) then LeaveAnnounce else Idle
    case Say => if Named(x) then Chat else Idle
    case Quit => Removing
  }

  function AfterLeave(pc: Pc): Pc
    requires pc.CreateLeave? || pc.JoinLeave? || pc.LeaveRoom?
  {
    match pc
    case CreateLeave(name) => CreateRoom(name)
    case JoinLeave(id) => JoinRoom(id)
    case LeaveRoom => LeaveClear
  }

  function Next(s: State, a: Action): State
    requires Shaped(s) && Enabled(s, a)
  {
    match a
    case Accept(granted, spawned) =>
      var (slots, c) := CS.AddClient(s.slots, granted);
      if c < 0 then s.(slots := slots)
      else s.(slots := slots, threads := s.threads + [Thread(c, if spawned then Handshaking else Removing)])
    case Shake(t, ok) =>
      if ok then Goto(WithSession(s, t, SessionOf(s, t).(state := CS.InLobby)), t, Idle) else Goto(s, t, Removing)
    case Begin(t, c) => Goto(s, t, Dispatched(SessionOf(s, t), c))
    case DoLeave(t) =>
      var table := RoomTable.Leave(s.table, SessionOf(s, t).roomId, s.threads[t].slot).0;
      Goto(s.(table := table), t, AfterLeave(s.threads[t].pc))
    case DoCreate(t, id) =>
      var (table, out) := RoomTable.Create(s.table, id, s.threads[t].pc.name, s.threads[t].slot);
      if out.Created? then Goto(s.(table := table, idBuffer := id, lastCreator := t), t, CopyId(id))
      else Goto(s, t, Idle)
    case DoCopy(t) => Goto(s, t, Entering(s.idBuffer, false))
    case DoEnter(t) =>
      var Entering(id, announce) := s.threads[t].pc;
      var x := SessionOf(s, t).(state := CS.InRoom, roomId := Truncated(id, ID_LENGTH));
      Goto(WithSession(s, t, x), t, if announce then Announce(id) else Idle)
    case DoJoin(t) =>
      var id := s.threads[t].pc.id;
      var (table, out) := RoomTable.Join(s.table, id, s.threads[t].slot);
      Goto(s.(table := table), t, if out.Tried? && out.outcome == Added then Entering(id, true) else Idle)
    case DoBroadcast(t) => Goto(s, t, if s.threads[t].pc.LeaveAnnounce? then LeaveRoom else Idle)
    case DoClear(t) => Goto(WithSession(s, t, SessionOf(s, t).(state := CS.InLobby, roomId := "")), t, Idle)
    case DoRemove(t) =>
      var c := s.threads[t].slot;
      Goto(s.(slots := CS.RemoveClient(s.slots, c)), t, Exited)
    case DoSend(sender, failing) =>
      s.(slots := CS.Broadcast(s.slots, CS.MAX_CLIENTS, sender, failing))
  }

  /** The room id a broadcast step sends to. */
  function Target(s: State, t: nat): string
    requires Shaped(s) && t < |s.threads|
  {
    match s.threads[t].pc
    case Announce(id) => id
    case _ => SessionOf(s, t).roomId
  }

  /** The clients a broadcast step reaches, given which sends succeed. */
  function Delivered(s: State, t: nat, sendable: set<int>): seq<int>
    requires Shaped(s) && t < |s.threads|
  {
    var live := set c | c in sendable && 0 <= c < CS.MAX_CLIENTS && s.slots.sessions[c].active;
    RoomTable.Broadcast(s.table, Target(s, t), s.threads[t].slot, live)
  }

  // ---------------------------------------------------------------- what every run keeps

  predicate PcOk(pc: Pc, idBuffer: string) {
    match pc
    case JoinLeave(id) => |id| == ID_LENGTH
    case JoinRoom(id) => |id| == ID_LENGTH
    case Entering(id, _) => |id| == ID_LENGTH
    case CopyId(own) => |own| == ID_LENGTH && |idBuffer| == ID_LENGTH
    case _ => true
  }

  ghost predicate Inv(s: State) {
    && Shaped(s)
    && RoomTable.Valid(s.table)
    && CS.Valid(s.slots)
    && PcsOk(s)
  }

  ghost predicate PcsOk(s: State) {
    forall t :: 0 <= t < |s.threads| ==> PcOk(s.threads[t].pc, s.idBuffer)
  }

  lemma StartInv()
    ensures Inv(Start())
  {
    EmptyIsValid();
    CS.NoClientsIsValid();
  }

  lemma SessionUpdate(s: CS.Slots, c: nat, x: Session)
    requires CS.Valid(s) && c < CS.MAX_CLIENTS && x.active == s.sessions[c].active
    ensures CS.Valid(s.(sessions := s.sessions[c := x]))
  {
    CountUpdate(s.sessions, c, x, CS.IsActive);
  }

  lemma StepKeepsTable(s: State, a: Action)
    requires Shaped(s) && RoomTable.Valid(s.table) && Enabled(s, a)
    ensures RoomTable.Valid(Next(s, a).table)
  {
    match a
    case DoLeave(t) => LeaveKeepsValid(s.table, SessionOf(s, t).roomId, s.threads[t].slot);
    case DoCreate(t, id) => CreateKeepsValid(s.table, id, s.threads[t].pc.name, s.threads[t].slot);
    case DoJoin(t) => JoinKeepsValid(s.table, s.threads[t].pc.id, s.threads[t].slot);
    case _ =>
  }

  lemma StepKeepsSlots(s: State, a: Action)
    requires Shaped(s) && CS.Valid(s.slots) && Enabled(s, a)
    ensures CS.Valid(Next(s, a).slots)
  {
    match a
    case Accept(granted, _) => CS.AddKeepsValid(s.slots, granted);
    case Shake(t, ok) => SessionUpdate(s.slots, s.threads[t].slot, SessionOf(s, t).(state := CS.InLobby));
    case DoEnter(t) =>
      var x := SessionOf(s, t).(state := CS.InRoom, roomId := Truncated(s.threads[t].pc.id, ID_LENGTH));
      SessionUpdate(s.slots, s.threads[t].slot, x);
    case DoClear(t) => SessionUpdate(s.slots, s.threads[t].slot, SessionOf(s, t).(state := CS.InLobby, roomId := ""));
    case DoRemove(t) => CS.RemoveKeepsValid(s.slots, s.threads[t].slot);
    case DoSend(sender, failing) => CS.BroadcastKeepsValid(s.slots, CS.MAX_CLIENTS, sender, failing);
    case _ =>
  }

  lemma StepKeepsShape(s: State, a: Action)
    requires Shaped(s) && Enabled(s, a)
    ensures Shaped(Next(s, a))
  {
  }

  lemma StepKeepsPcs(s: State, a: Action)
    requires Shaped(s) && PcsOk(s) && Enabled(s, a)
    ensures PcsOk(Next(s, a))
  {
    var u := Next(s, a);
    match a
    case Accept(_, _) =>
    case DoSend(_, _) =>
    case DoCreate(t, id) =>
    case Shake(t, _) => OtherPcs(s, u, t);
    case Begin(t, _) => OtherPcs(s, u, t);
    case DoLeave(t) => OtherPcs(s, u, t);
    case DoCopy(t) => OtherPcs(s, u, t);
    case DoEnter(t) => OtherPcs(s, u, t);
    case DoJoin(t) => OtherPcs(s, u, t);
    case DoBroadcast(t) => OtherPcs(s, u, t);
    case DoClear(t) => OtherPcs(s, u, t);
    case DoRemove(t) => OtherPcs(s, u, t);
  }

  lemma OtherPcs(s: State, u: State, t: nat)
    requires PcsOk(s) && t < |s.threads| && u.idBuffer == s.idBuffer
    requires |u.threads| == |s.threads| && u.threads == s.threads[t := u.threads[t]]
    requires PcOk(u.threads[t].pc, u.idBuffer)
    ensures PcsOk(u)
  {
  }

  /** Both tables stay valid under every action, colliding room ids and disconnects included. */
  lemma {:induction false} StepKeepsInv(s: State, a: Action)
    requires Inv(s) && Enabled(s, a)
    ensures Inv(Next(s, a))
  {
    StepKeepsTable(s, a);
    StepKeepsSlots(s, a);
    StepKeepsShape(s, a);
    StepKeepsPcs(s, a);
  }
}

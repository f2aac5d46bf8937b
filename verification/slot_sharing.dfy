/**
 A client dropped by a failed send loses its session at once, but its handler runs on.  When two
 handlers can serve one slot, and what the older one then does to the newer one's client.
 */
module SlotSharing {
  import opened Counting
  import opened ChatServer
  import opened Membership
  import opened Leftovers
  import CS = ClientSlots

  /** The thread started last for slot c, finished or not: the one its current session was opened for. */
  ghost predicate Newest(s: State, c: nat, t: int) {
    && 0 <= t < |s.threads| && s.threads[t].slot == c
    && forall u :: t < u < |s.threads| ==> s.threads[u].slot != c
  }

  /** At most one unfinished thread serves slot c, and an active session belongs to it. */
  ghost predicate Sole(s: State, c: nat)
    requires ChatServer.Shaped(s) && c < CS.MAX_CLIENTS
  {
    && (forall t, u :: At(s, c, t) && At(s, c, u) ==> t == u)
    && (s.slots.sessions[c].active ==> exists t :: At(s, c, t) && Newest(s, c, t))
  }

  /** The acceptor gives slot c away while a handler of it is still unfinished. */
  ghost predicate HandsOutBusy(s: State, a: Action, c: nat)
    requires ChatServer.Shaped(s)
  {
    a.Accept? && a.granted && First(s.slots.sessions, CS.IsInactive) == c && exists t :: At(s, c, t)
  }

  /** A disconnect clears a session that was opened for a later thread. */
  ghost predicate ClearsLater(s: State, a: Action, c: nat)
    requires ChatServer.Shaped(s) && c < CS.MAX_CLIENTS
  {
    a.DoRemove? && At(s, c, a.t) && s.slots.sessions[c].active && !Newest(s, c, a.t)
  }

  /** The session is gone and its handler is not. */
  ghost predicate Dangling(s: State, c: nat)
    requires ChatServer.Shaped(s) && c < CS.MAX_CLIENTS
  {
    !s.slots.sessions[c].active && exists t :: At(s, c, t)
  }

  // ---------------------------------------------------------------- one handler per slot, exactly

  lemma HandOutStep(s: State, a: Action, c: nat)
    requires Inv(s) && Enabled(s, a) && c < CS.MAX_CLIENTS && Sole(s, c)
    requires a.Accept? && a.granted && First(s.slots.sessions, CS.IsInactive) == c
    ensures ChatServer.Shaped(Next(s, a)) && Next(s, a).slots.sessions[c].active
    ensures At(Next(s, a), c, |s.threads|) && Newest(Next(s, a), c, |s.threads|)
    ensures forall t :: At(s, c, t) ==> At(Next(s, a), c, t) && !Newest(Next(s, a), c, t)
    ensures Sole(Next(s, a), c) <==> !HandsOutBusy(s, a, c)
  {
    StepKeepsShape(s, a);
    var u, n := Next(s, a), |s.threads|;
    assert At(u, c, n) && Newest(u, c, n);
    forall t | At(s, c, t) ensures At(u, c, t) && !Newest(u, c, t) {
      assert u.threads[n].slot == c;
    }
    forall t | At(u, c, t) ensures t == n || At(s, c, t) {
    }
  }

  lemma OtherwiseStep(s: State, a: Action, c: nat)
    requires Inv(s) && Enabled(s, a) && c < CS.MAX_CLIENTS && Sole(s, c)
    requires !(a.Accept? && a.granted && First(s.slots.sessions, CS.IsInactive) == c)
    ensures ChatServer.Shaped(Next(s, a)) && Sole(Next(s, a), c)
    ensures Dangling(Next(s, a), c) <==>
            DropsClient(s, a, c) || (Dangling(s, c) && !(a.DoRemove? && At(s, c, a.t)))
  {
    StepKeepsShape(s, a);
    var u := Next(s, a);
    if a.DoSend? {
      CS.BroadcastKeepsValid(s.slots, CS.MAX_CLIENTS, a.sender, a.failing);
    }
    SameThreads(s, a, c);
    if s.slots.sessions[c].active {
      var t :| At(s, c, t) && Newest(s, c, t);
      assert Newest(u, c, t);
      assert !(a.DoRemove? && At(s, c, a.t)) ==> At(u, c, t);
    }
    if Dangling(s, c) {
      var t :| At(s, c, t);
      assert !(a.DoRemove? && At(s, c, a.t)) ==> At(u, c, t);
    }
  }

  lemma SameSlots(s: State, a: Action, c: nat)
    requires Inv(s) && Enabled(s, a) && c < CS.MAX_CLIENTS
    requires !(a.Accept? && a.granted && First(s.slots.sessions, CS.IsInactive) == c)
    ensures |s.threads| <= |Next(s, a).threads|
    ensures forall t :: 0 <= t < |s.threads| ==> Next(s, a).threads[t].slot == s.threads[t].slot
    ensures forall t :: |s.threads| <= t < |Next(s, a).threads| ==> Next(s, a).threads[t].slot != c
  {
  }

  lemma SamePcs(s: State, a: Action, c: nat, t: nat)
    requires Inv(s) && Enabled(s, a) && c < CS.MAX_CLIENTS && t < |s.threads| && s.threads[t].slot == c
    ensures t < |Next(s, a).threads|
    ensures Next(s, a).threads[t].pc.Exited? <==> s.threads[t].pc.Exited? || (a.DoRemove? && a.t == t)
  {
  }

  /** Unless the slot is handed out, its threads stay what they are, but for one that disconnects. */
  lemma SameThreads(s: State, a: Action, c: nat)
    requires Inv(s) && Enabled(s, a) && c < CS.MAX_CLIENTS
    requires !(a.Accept? && a.granted && First(s.slots.sessions, CS.IsInactive) == c)
    ensures forall t :: At(Next(s, a), c, t) <==> At(s, c, t) && !(a.DoRemove? && a.t == t)
    ensures forall t :: Newest(s, c, t) ==> Newest(Next(s, a), c, t)
  {
    SameSlots(s, a, c);
    forall t ensures At(Next(s, a), c, t) <==> At(s, c, t) && !(a.DoRemove? && a.t == t) {
      if 0 <= t < |s.threads| && s.threads[t].slot == c {
        SamePcs(s, a, c, t);
      }
    }
  }

  /** Slot c keeps its one handler exactly when it is not given away while one is unfinished. */
  lemma {:induction false} SoleStep(s: State, a: Action, c: nat)
    requires Inv(s) && Enabled(s, a) && c < CS.MAX_CLIENTS && Sole(s, c)
    ensures ChatServer.Shaped(Next(s, a))
    ensures Sole(Next(s, a), c) <==> !HandsOutBusy(s, a, c)
  {
    if a.Accept? && a.granted && First(s.slots.sessions, CS.IsInactive) == c {
      HandOutStep(s, a, c);
    } else {
      OtherwiseStep(s, a, c);
    }
  }

  /** A handler without a session comes from a failed send to its client, and stays until it disconnects. */
  lemma {:induction false} DanglingExactly(s: State, a: Action, c: nat)
    requires Inv(s) && Enabled(s, a) && c < CS.MAX_CLIENTS && Sole(s, c) && !HandsOutBusy(s, a, c)
    ensures ChatServer.Shaped(Next(s, a))
    ensures Dangling(Next(s, a), c) <==>
            DropsClient(s, a, c) || (Dangling(s, c) && !(a.DoRemove? && At(s, c, a.t)))
  {
    if a.Accept? && a.granted && First(s.slots.sessions, CS.IsInactive) == c {
      HandOutStep(s, a, c);
    } else {
      OtherwiseStep(s, a, c);
    }
  }

  ghost predicate AlwaysSole(s: State, actions: seq<Action>, c: nat)
    requires ChatServer.Shaped(s) && Runs(s, actions) && c < CS.MAX_CLIENTS
    decreases |actions|
  {
    Sole(s, c) &&
    (actions == [] || (StepKeepsShape(s, actions[0]); AlwaysSole(Next(s, actions[0]), actions[1..], c)))
  }

  ghost predicate NeverHandedOutBusy(s: State, actions: seq<Action>, c: nat)
    requires ChatServer.Shaped(s) && Runs(s, actions) && c < CS.MAX_CLIENTS
    decreases |actions|
  {
    actions == [] ||
    (!HandsOutBusy(s, actions[0], c) &&
     (StepKeepsShape(s, actions[0]); NeverHandedOutBusy(Next(s, actions[0]), actions[1..], c)))
  }

  ghost predicate NeverClearsLater(s: State, actions: seq<Action>, c: nat)
    requires ChatServer.Shaped(s) && Runs(s, actions) && c < CS.MAX_CLIENTS
    decreases |actions|
  {
    actions == [] ||
    (!ClearsLater(s, actions[0], c) &&
     (StepKeepsShape(s, actions[0]); NeverClearsLater(Next(s, actions[0]), actions[1..], c)))
  }

  lemma {:induction false} SoleRunExactly(s: State, actions: seq<Action>, c: nat)
    requires Inv(s) && Runs(s, actions) && c < CS.MAX_CLIENTS && Sole(s, c)
    ensures AlwaysSole(s, actions, c) <==> NeverHandedOutBusy(s, actions, c)
    ensures AlwaysSole(s, actions, c) ==> NeverClearsLater(s, actions, c)
    decreases |actions|
  {
    if actions != [] {
      StepKeepsInv(s, actions[0]);
      SoleStep(s, actions[0], c);
      if Sole(Next(s, actions[0]), c) {
        SoleRunExactly(Next(s, actions[0]), actions[1..], c);
      }
    }
  }

  /**
   Over every run from the empty server and every slot: one unfinished handler at a time, owning the
   session, exactly when the slot is never given away before its last handler has finished; and then no
   handler ever disconnects a later user.
   */
  lemma {:induction false} OneHandlerExactly(actions: seq<Action>, c: nat)
    requires Runs(Start(), actions) && c < CS.MAX_CLIENTS
    ensures AlwaysSole(Start(), actions, c) <==> NeverHandedOutBusy(Start(), actions, c)
    ensures NeverHandedOutBusy(Start(), actions, c) ==> NeverClearsLater(Start(), actions, c)
  {
    StartConsistent(c);
    SoleRunExactly(Start(), actions, c);
  }

  // ---------------------------------------------------------------- what the older handler does

  /** A next step thread t can take by itself on its way to disconnecting. */
  function TowardsRemoval(t: nat, pc: Pc): Action
    requires !pc.Removing? && !pc.Exited?
  {
    match pc
    case Handshaking => Shake(t, false)
    case Idle => Begin(t, Quit)
    case CreateLeave(_) => DoLeave(t)
    case CreateRoom(_) => DoCreate(t, "000000")
    case CopyId(_) => DoCopy(t)
    case Entering(_, _) => DoEnter(t)
    case JoinLeave(_) => DoLeave(t)
    case JoinRoom(_) => DoJoin(t)
    case LeaveRoom => DoLeave(t)
    case LeaveClear => DoClear(t)
    case _ => DoBroadcast(t)
  }

  /** At most this many such steps are left. */
  function Distance(pc: Pc): nat {
    match pc
    case Exited => 0
    case Removing => 0
    case Handshaking => 1
    case Idle => 1
    case Announce(_) => 2
    case Chat => 2
    case LeaveClear => 2
    case Entering(_, _) => 3
    case LeaveRoom => 3
    case LeaveAnnounce => 4
    case CopyId(_) => 4
    case JoinRoom(_) => 4
    case JoinLeave(_) => 5
    case CreateRoom(_) => 5
    case CreateLeave(_) => 6
  }

  /** Between s and e only thread t has moved, and the session of its slot is still in use. */
  ghost predicate OnlyMoved(s: State, e: State, c: nat, t: nat)
    requires ChatServer.Shaped(s) && ChatServer.Shaped(e) && c < CS.MAX_CLIENTS
  {
    && At(s, c, t) && At(e, c, t) && |e.threads| == |s.threads|
    && (forall u :: 0 <= u < |s.threads| && u != t ==> e.threads[u] == s.threads[u])
    && s.slots.sessions[c].active && e.slots.sessions[c].active
  }

  lemma TowardsRemovalEnabled(s: State, t: nat)
    requires Inv(s) && t < |s.threads| && !s.threads[t].pc.Removing? && !s.threads[t].pc.Exited?
    ensures Enabled(s, TowardsRemoval(t, s.threads[t].pc)) && Inv(Next(s, TowardsRemoval(t, s.threads[t].pc)))
  {
    StepKeepsInv(s, TowardsRemoval(t, s.threads[t].pc));
  }

  lemma TowardsRemovalMoves(s: State, t: nat)
    requires Inv(s) && t < |s.threads| && !s.threads[t].pc.Removing? && !s.threads[t].pc.Exited?
    requires Enabled(s, TowardsRemoval(t, s.threads[t].pc))
    ensures var e := Next(s, TowardsRemoval(t, s.threads[t].pc));
            && |e.threads| == |s.threads| && e.threads == s.threads[t := e.threads[t]]
            && e.threads[t].slot == s.threads[t].slot && !e.threads[t].pc.Exited?
            && Distance(e.threads[t].pc) < Distance(s.threads[t].pc)
  {
  }

  lemma TowardsRemovalKeepsSession(s: State, c: nat, t: nat)
    requires Inv(s) && c < CS.MAX_CLIENTS && At(s, c, t) && s.slots.sessions[c].active && !s.threads[t].pc.Removing?
    requires Enabled(s, TowardsRemoval(t, s.threads[t].pc))
    requires ChatServer.Shaped(Next(s, TowardsRemoval(t, s.threads[t].pc)))
    ensures Next(s, TowardsRemoval(t, s.threads[t].pc)).slots.sessions[c].active
  {
  }

  lemma StepTowardsRemoval(s: State, c: nat, t: nat)
    requires Inv(s) && c < CS.MAX_CLIENTS && At(s, c, t) && s.slots.sessions[c].active && !s.threads[t].pc.Removing?
    ensures var a := TowardsRemoval(t, s.threads[t].pc);
            && Enabled(s, a) && Inv(Next(s, a)) && OnlyMoved(s, Next(s, a), c, t)
            && Distance(Next(s, a).threads[t].pc) < Distance(s.threads[t].pc)
  {
    TowardsRemovalEnabled(s, t);
    TowardsRemovalMoves(s, t);
    TowardsRemovalKeepsSession(s, c, t);
  }

  lemma OnlyMovedTwice(s: State, m: State, e: State, c: nat, t: nat)
    requires ChatServer.Shaped(s) && ChatServer.Shaped(m) && ChatServer.Shaped(e) && c < CS.MAX_CLIENTS
    requires OnlyMoved(s, m, c, t) && OnlyMoved(m, e, c, t)
    ensures OnlyMoved(s, e, c, t)
  {
  }

  lemma {:induction false} ReachesRemoval(s: State, c: nat, t: nat) returns (actions: seq<Action>)
    requires Inv(s) && c < CS.MAX_CLIENTS && At(s, c, t) && s.slots.sessions[c].active
    ensures Runs(s, actions)
    ensures var e := Exec(s, actions); Inv(e) && OnlyMoved(s, e, c, t) && e.threads[t].pc.Removing?
    decreases Distance(s.threads[t].pc)
  {
    if s.threads[t].pc.Removing? {
      actions := [];
    } else {
      var a := TowardsRemoval(t, s.threads[t].pc);
      StepTowardsRemoval(s, c, t);
      var rest := ReachesRemoval(Next(s, a), c, t);
      PrependRun(s, a, rest);
      OnlyMovedTwice(s, Next(s, a), Exec(Next(s, a), rest), c, t);
      actions := [a] + rest;
    }
  }

  /** A slot in use by a later, unfinished thread u while an earlier thread t of it is unfinished too. */
  ghost predicate Shared(s: State, c: nat, t: nat, u: nat)
    requires ChatServer.Shaped(s) && c < CS.MAX_CLIENTS
  {
    At(s, c, t) && At(s, c, u) && t < u && s.slots.sessions[c].active
  }

  /**
   Wherever the older handler stands, its own steps alone lead to a disconnect that clears the later
   user's session, context and place in the client count, while the later user's handler stays
   where it was.
   */
  lemma {:induction false} OlderHandlerDisconnects(s: State, c: nat, t: nat, u: nat) returns (actions: seq<Action>)
    requires Inv(s) && c < CS.MAX_CLIENTS && Shared(s, c, t, u)
    ensures Runs(s, actions)
    ensures var e := Exec(s, actions);
            && Inv(e) && Enabled(e, DoRemove(t)) && Shared(e, c, t, u) && ClearsLater(e, DoRemove(t), c)
            && e.threads[u] == s.threads[u]
            && var f := Next(e, DoRemove(t));
               && Inv(f) && f.slots.sessions[c] == CS.Cleared() && !f.slots.contexts[c]
               && f.slots.clientCount == e.slots.clientCount - 1
               && At(f, c, u) && f.threads[u] == s.threads[u]
  {
    actions := ReachesRemoval(s, c, t);
    StepKeepsInv(Exec(s, actions), DoRemove(t));
    assert !Newest(Exec(s, actions), c, t);
  }

  /** Giving a busy slot away creates exactly that situation. */
  lemma {:induction false} BusyHandOutShares(s: State, a: Action, c: nat) returns (t: nat)
    requires Inv(s) && Enabled(s, a) && c < CS.MAX_CLIENTS && HandsOutBusy(s, a, c)
    ensures At(s, c, t) && Inv(Next(s, a)) && Shared(Next(s, a), c, t, |s.threads|)
  {
    StepKeepsInv(s, a);
    t :| At(s, c, t);
    assert At(Next(s, a), c, |s.threads|) && At(Next(s, a), c, t);
  }

  // ---------------------------------------------------------------- from the empty server

  /** After a handshake on the empty server: one lobby client on slot 0. */
  lemma FirstClient() returns (s: State)
    ensures Inv(Start()) && Enabled(Start(), Accept(true, true)) && Inv(Next(Start(), Accept(true, true)))
    ensures var s1 := Next(Start(), Accept(true, true)); Enabled(s1, Shake(0, true)) && s == Next(s1, Shake(0, true))
    ensures Inv(s) && s.threads == [Thread(0, Idle)] && s.slots.sessions[0].active
  {
    StartInv();
    FirstIs(Start().slots.sessions, CS.IsInactive, 0);
    StepKeepsInv(Start(), Accept(true, true));
    var s1 := Next(Start(), Accept(true, true));
    StepKeepsInv(s1, Shake(0, true));
    s := Next(s1, Shake(0, true));
  }

  /** A send to the only client fails, and then its slot is given away. */
  lemma DroppedThenBusy(s: State)
    requires Inv(s) && s.threads == [Thread(0, Idle)] && s.slots.sessions[0].active
    ensures var s1 := Next(s, DoSend(-1, {0}));
            && Inv(s1) && DropsClient(s, DoSend(-1, {0}), 0) && HandsOutBusy(s1, Accept(true, true), 0)
            && var s2 := Next(s1, Accept(true, true));
               Inv(s2) && s2.threads == [Thread(0, Idle), Thread(0, Handshaking)] && s2.slots.sessions[0].active
  {
    var a, b := DoSend(-1, {0}), Accept(true, true);
    StepKeepsInv(s, a);
    var s1 := Next(s, a);
    CS.BroadcastKeepsValid(s.slots, CS.MAX_CLIENTS, -1, {0});
    assert CS.Drops(s.slots, 0, -1, {0});
    FirstIs(s1.slots.sessions, CS.IsInactive, 0);
    assert At(s1, 0, 0);
    StepKeepsInv(s1, b);
  }

  lemma StaleTail(s: State) returns (actions: seq<Action>)
    requires Inv(s) && s.threads == [Thread(0, Idle), Thread(0, Handshaking)] && s.slots.sessions[0].active
    ensures Runs(s, actions) && AllFresh(s, actions)
    ensures var e := Exec(s, actions);
            && Inv(e) && e.threads == [Thread(0, Removing), Thread(0, Handshaking)]
            && Shared(e, 0, 0, 1) && Newest(e, 0, 1) && ClearsLater(e, DoRemove(0), 0)
  {
    var a := Begin(0, Quit);
    StepKeepsInv(s, a);
    var e := Next(s, a);
    assert At(e, 0, 0) && At(e, 0, 1) && !Newest(e, 0, 0);
    Prepend(s, a, []);
    actions := [a] + [];
  }

  /**
   Reached from the empty server: the first client is dropped, its slot is given to a second, and the
   first one's handler, now about to disconnect, will clear the second one's session.
   */
  lemma {:induction false} StaleHandlerReachable() returns (actions: seq<Action>)
    ensures Runs(Start(), actions) && AllFresh(Start(), actions)
    ensures var e := Exec(Start(), actions);
            && Inv(e) && e.threads == [Thread(0, Removing), Thread(0, Handshaking)]
            && Shared(e, 0, 0, 1) && Newest(e, 0, 1) && ClearsLater(e, DoRemove(0), 0)
  {
    var a, b, c := Accept(true, true), Shake(0, true), DoSend(-1, {0});
    var s := FirstClient();
    DroppedThenBusy(s);
    var s1 := Next(s, c);
    var tail := StaleTail(Next(s1, a));
    Prepend(s1, a, tail);
    Prepend(s, c, [a] + tail);
    Prepend(Next(Start(), a), b, [c] + ([a] + tail));
    Prepend(Start(), a, [b] + ([c] + ([a] + tail)));
    actions := [a] + ([b] + ([c] + ([a] + tail)));
  }
}

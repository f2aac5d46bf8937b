/** The 100 client slots and the security contexts kept beside them. */
module ClientSlots {
  import opened Bytes
  import opened Counting

  const MAX_CLIENTS := 100
  const NO_CLIENT: int := -1

  datatype ClientState = Connected | InLobby | InRoom

  datatype Session = Session(active: bool, state: ClientState, roomId: string)

  /** A session after cleanup, and before its first use. */
  function Cleared(): Session {
    Session(false, Connected, "")
  }

  function Connecting(): Session {
    Session(true, Connected, "")
  }

  predicate IsActive(s: Session) {
    s.active
  }

  predicate IsInactive(s: Session) {
    !s.active
  }

  predicate Live(context: bool) {
    context
  }

  /**
   Both tables and both counters.  The last field is a history variable: how many times a slot was
   handed out while the context of its previous user was still there.
   */
  datatype Slots = Slots(sessions: seq<Session>, clientCount: int, contexts: seq<bool>, numContexts: nat, replaced: nat)

  function NoClients(): Slots {
    Slots(seq(MAX_CLIENTS, _ => Cleared()), 0, seq(MAX_CLIENTS, _ => false), 0, 0)
  }

  predicate Shaped(s: Slots) {
    |s.sessions| == MAX_CLIENTS && |s.contexts| == MAX_CLIENTS
  }

  // ---------------------------------------------------------------- the critical sections as functions

  /** client_manager_add_new_client; granted says whether the new security context could be created. */
  function AddClient(s: Slots, granted: bool): (Slots, int)
    requires Shaped(s)
  {
    var i := First(s.sessions, IsInactive);
    if i == MAX_CLIENTS then (s, NO_CLIENT)
    else
      var replaced := s.replaced + (if s.contexts[i] then 1 else 0);
      if granted then
        var sessions, contexts := s.sessions[i := Connecting()], s.contexts[i := true];
        (Slots(sessions, s.clientCount + 1, contexts, (s.numContexts + 1) % U32, replaced), i as int)
      else
        (Slots(s.sessions[i := Cleared()], s.clientCount, s.contexts[i := false], s.numContexts, replaced), NO_CLIENT)
  }

  /** uint32 decrement. */
  function Decremented(n: nat): nat {
    if n == 0 then U32 - 1 else n - 1
  }

  function RemoveClient(s: Slots, c: int): Slots
    requires Shaped(s)
  {
    if !(0 <= c < MAX_CLIENTS) || !s.sessions[c].active then s
    else
      Slots(s.sessions[c := Cleared()], s.clientCount - 1, s.contexts[c := false],
            if s.contexts[c] then Decremented(s.numContexts) else s.numContexts, s.replaced)
  }

  predicate Drops(s: Slots, i: nat, sender: int, failing: set<nat>)
    requires i < |s.sessions|
  {
    s.sessions[i].active && i != sender && i in failing
  }

  /** The state of a broadcast after the first n slots; a slot whose send fails is dropped, its context is not. */
  function Broadcast(s: Slots, n: nat, sender: int, failing: set<nat>): (r: Slots)
    requires Shaped(s) && n <= MAX_CLIENTS
    ensures Shaped(r)
  {
    if n == 0 then s
    else
      var r := Broadcast(s, n - 1, sender, failing);
      if Drops(r, n - 1, sender, failing) then
        r.(sessions := r.sessions[n - 1 := Cleared()], clientCount := r.clientCount - 1)
      else r
  }

  /** Those of the first n slots a broadcast is delivered to, in slot order. */
  function Reached(s: Slots, n: nat, sender: int, failing: set<nat>): seq<int>
    requires Shaped(s) && n <= MAX_CLIENTS
  {
    if n == 0 then []
    else
      var front := Reached(s, n - 1, sender, failing);
      if s.sessions[n - 1].active && n - 1 != sender && n - 1 !in failing then front + [n - 1] else front
  }

  lemma {:induction false} ReachedAre(s: Slots, n: nat, sender: int, failing: set<nat>, c: int)
    requires Shaped(s) && n <= MAX_CLIENTS
    ensures c in Reached(s, n, sender, failing) <==> 0 <= c < n && s.sessions[c].active && c != sender && c !in failing
  {
    if n > 0 {
      ReachedAre(s, n - 1, sender, failing, c);
    }
  }

  predicate IncreasingBelow(ids: seq<int>, n: int) {
    && (forall a :: 0 <= a < |ids| ==> 0 <= ids[a] < n)
    && (forall a, b :: 0 <= a < b < |ids| ==> ids[a] < ids[b])
  }

  lemma IncreasingAppend(ids: seq<int>, n: int)
    requires n >= 0 && IncreasingBelow(ids, n)
    ensures IncreasingBelow(ids, n + 1) && IncreasingBelow(ids + [n], n + 1)
  {
  }

  /** A broadcast is delivered in slot order, to nobody twice. */
  lemma {:induction false} ReachedInOrder(s: Slots, n: nat, sender: int, failing: set<nat>)
    requires Shaped(s) && n <= MAX_CLIENTS
    ensures IncreasingBelow(Reached(s, n, sender, failing), n)
  {
    if n > 0 {
      ReachedInOrder(s, n - 1, sender, failing);
      IncreasingAppend(Reached(s, n - 1, sender, failing), n - 1);
    }
  }

  // ---------------------------------------------------------------- the bookkeeping invariant

  ghost predicate Valid(s: Slots) {
    && Shaped(s)
    && s.clientCount == Count(s.sessions, IsActive)
    && (forall i :: 0 <= i < MAX_CLIENTS && s.sessions[i].active ==> s.contexts[i])
    && s.numContexts == (Count(s.contexts, Live) + s.replaced) % U32
  }

  lemma NoClientsIsValid()
    ensures Valid(NoClients())
  {
    CountExtremes(NoClients().sessions, IsActive);
    CountExtremes(NoClients().contexts, Live);
  }

  lemma IncrementModulo(n: nat)
    ensures (n % U32 + 1) % U32 == (n + 1) % U32
  {
  }

  lemma DecrementModulo(n: nat)
    requires n > 0
    ensures Decremented(n % U32) == (n - 1) % U32
  {
  }

  lemma AddKeepsSessions(s: Slots, i: nat, x: Session, c: int)
    requires Valid(s) && i < MAX_CLIENTS && !s.sessions[i].active && c == s.clientCount + (if x.active then 1 else 0)
    ensures c == Count(s.sessions[i := x], IsActive)
  {
    CountUpdate(s.sessions, i, x, IsActive);
  }

  lemma AddKeepsContexts(s: Slots, i: nat, granted: bool)
    requires Valid(s) && i < MAX_CLIENTS
    ensures (if granted then (s.numContexts + 1) % U32 else s.numContexts)
         == (Count(s.contexts[i := granted], Live) + s.replaced + (if s.contexts[i] then 1 else 0)) % U32
  {
    CountUpdate(s.contexts, i, granted, Live);
    IncrementModulo(Count(s.contexts, Live) + s.replaced);
  }

  lemma AddGranted(s: Slots, i: nat)
    requires Valid(s) && i == First(s.sessions, IsInactive) < MAX_CLIENTS
    ensures Valid(AddClient(s, true).0) && s.clientCount < MAX_CLIENTS
  {
    CountExtremes(s.sessions, IsActive);
    AddKeepsSessions(s, i, Connecting(), s.clientCount + 1);
    AddKeepsContexts(s, i, true);
  }

  lemma AddRefused(s: Slots, i: nat)
    requires Valid(s) && i == First(s.sessions, IsInactive) < MAX_CLIENTS
    ensures Valid(AddClient(s, false).0)
  {
    AddKeepsSessions(s, i, Cleared(), s.clientCount);
    AddKeepsContexts(s, i, false);
  }

  /** Adding fails only when every slot is active or no context could be granted. */
  lemma {:induction false} AddKeepsValid(s: Slots, granted: bool)
    requires Valid(s)
    ensures var (r, c) := AddClient(s, granted);
            && Valid(r)
            && (c == NO_CLIENT <==> !granted || s.clientCount == MAX_CLIENTS)
            && (c != NO_CLIENT ==>
                0 <= c < MAX_CLIENTS && !s.sessions[c].active && r.sessions == s.sessions[c := Connecting()])
            && (c == NO_CLIENT ==>
                forall i :: 0 <= i < MAX_CLIENTS && s.sessions[i].active ==> r.sessions[i] == s.sessions[i])
  {
    var i := First(s.sessions, IsInactive);
    if i == MAX_CLIENTS {
      CountExtremes(s.sessions, IsActive);
    } else if granted {
      AddGranted(s, i);
    } else {
      AddRefused(s, i);
    }
  }

  /** The lowest inactive slot is the one handed out, with a fresh session; a refused context leaves it cleared. */
  lemma {:induction false} AddTakesLowest(s: Slots, granted: bool, i: nat)
    requires Shaped(s) && i < MAX_CLIENTS && !s.sessions[i].active && forall j :: 0 <= j < i ==> s.sessions[j].active
    ensures var (r, c) := AddClient(s, granted);
            && c == (if granted then i else NO_CLIENT)
            && r.sessions == s.sessions[i := Session(granted, Connected, "")]
            && r.contexts == s.contexts[i := granted]
            && r.clientCount == s.clientCount + (if granted then 1 else 0)
            && r.replaced == s.replaced + (if s.contexts[i] then 1 else 0)
  {
    forall j | 0 <= j < i ensures !IsInactive(s.sessions[j]) {
    }
    FirstIs(s.sessions, IsInactive, i);
  }

  /** Removing frees the slot with its context, and the context counter does not wrap below zero. */
  lemma {:induction false} RemoveKeepsValid(s: Slots, c: int)
    requires Valid(s)
    ensures Valid(RemoveClient(s, c))
    ensures 0 <= c < MAX_CLIENTS && s.sessions[c].active ==>
              && RemoveClient(s, c).sessions == s.sessions[c := Session(false, Connected, "")]
              && RemoveClient(s, c).contexts == s.contexts[c := false]
              && RemoveClient(s, c).replaced == s.replaced
    ensures !(0 <= c < MAX_CLIENTS && s.sessions[c].active) ==> RemoveClient(s, c) == s
    ensures 0 <= c < MAX_CLIENTS && s.sessions[c].active && s.replaced + MAX_CLIENTS < U32 ==>
              s.numContexts > 0 && RemoveClient(s, c).numContexts == s.numContexts - 1
  {
    if 0 <= c < MAX_CLIENTS && s.sessions[c].active {
      CountExtremes(s.contexts, Live);
      CountUpdate(s.sessions, c, Cleared(), IsActive);
      CountUpdate(s.contexts, c, false, Live);
      DecrementModulo(Count(s.contexts, Live) + s.replaced);
    }
  }

  lemma {:induction false} BroadcastKeepsValid(s: Slots, n: nat, sender: int, failing: set<nat>)
    requires Valid(s) && n <= MAX_CLIENTS
    ensures Valid(Broadcast(s, n, sender, failing))
    ensures var r := Broadcast(s, n, sender, failing);
            && r.contexts == s.contexts && r.numContexts == s.numContexts && r.replaced == s.replaced
            && forall i :: 0 <= i < MAX_CLIENTS ==>
                 r.sessions[i] == if i < n && Drops(s, i, sender, failing) then Cleared() else s.sessions[i]
    decreases n
  {
    if n == 0 {
    } else {
      BroadcastKeepsValid(s, n - 1, sender, failing);
      CountUpdate(Broadcast(s, n - 1, sender, failing).sessions, n - 1, Cleared(), IsActive);
    }
  }

  // ---------------------------------------------------------------- every run

  datatype Op = Accept(granted: bool) | Remove(c: int) | Send(sender: int, failing: set<nat>)

  function Apply(s: Slots, op: Op): Slots
    requires Shaped(s)
  {
    match op
    case Accept(granted) => AddClient(s, granted).0
    case Remove(c) => RemoveClient(s, c)
    case Send(sender, failing) => Broadcast(s, MAX_CLIENTS, sender, failing)
  }

  function Run(ops: seq<Op>): (s: Slots)
    ensures Shaped(s)
  {
    if ops == [] then NoClients() else Apply(Run(ops[..|ops| - 1]), ops[|ops| - 1])
  }

  lemma ApplyKeepsValid(s: Slots, op: Op)
    requires Valid(s)
    ensures Valid(Apply(s, op))
  {
    match op
    case Accept(granted) => AddKeepsValid(s, granted);
    case Remove(c) => RemoveKeepsValid(s, c);
    case Send(sender, failing) => BroadcastKeepsValid(s, MAX_CLIENTS, sender, failing);
  }

  lemma CounterReading(s: Slots)
    requires Valid(s) && s.replaced + MAX_CLIENTS < U32
    ensures s.numContexts == Count(s.contexts, Live) + s.replaced >= s.clientCount
  {
    FewerActiveThanLive(s.sessions, s.contexts);
  }

  /**
   In every run the client counter is the number of active sessions, every active session has its
   context, and the context counter is the live contexts plus the replacements, failed allocations
   included; so the counter exceeds the live contexts exactly by the reuses of slots dropped in a broadcast.
   */
  lemma {:induction false} EveryRunKeepsBooks(ops: seq<Op>)
    ensures Valid(Run(ops))
    ensures Run(ops).replaced + MAX_CLIENTS < U32 ==>
              Run(ops).numContexts == Count(Run(ops).contexts, Live) + Run(ops).replaced >= Run(ops).clientCount
  {
    if ops == [] {
      NoClientsIsValid();
    } else {
      EveryRunKeepsBooks(ops[..|ops| - 1]);
      ApplyKeepsValid(Run(ops[..|ops| - 1]), ops[|ops| - 1]);
    }
    if Run(ops).replaced + MAX_CLIENTS < U32 {
      CounterReading(Run(ops));
    }
  }

  lemma {:induction false} FewerActiveThanLive(sessions: seq<Session>, contexts: seq<bool>)
    requires |sessions| == |contexts| && forall i :: 0 <= i < |sessions| && sessions[i].active ==> contexts[i]
    ensures Count(sessions, IsActive) <= Count(contexts, Live)
  {
    if sessions == [] {
    } else {
      FewerActiveThanLive(sessions[..|sessions| - 1], contexts[..|contexts| - 1]);
    }
  }

  // ---------------------------------------------------------------- where replacements come from

  /** A slot nobody uses that still has a context: handing it out is what `replaced` counts. */
  predicate Leftover(s: Slots, i: nat)
    requires Shaped(s) && i < MAX_CLIENTS
  {
    s.contexts[i] && !s.sessions[i].active
  }

  predicate HandsOut(s: Slots, op: Op, i: nat) {
    op.Accept? && First(s.sessions, IsInactive) == i
  }

  predicate DropsSlot(s: Slots, op: Op, i: nat)
    requires Shaped(s) && i < MAX_CLIENTS
  {
    op.Send? && Drops(s, i, op.sender, op.failing)
  }

  lemma LeftoverStep(s: Slots, op: Op, i: nat)
    requires Valid(s) && i < MAX_CLIENTS
    ensures Shaped(Apply(s, op))
    ensures Leftover(Apply(s, op), i) <==> DropsSlot(s, op, i) || (Leftover(s, i) && !HandsOut(s, op, i))
  {
    if op.Send? {
      BroadcastKeepsValid(s, MAX_CLIENTS, op.sender, op.failing);
    }
  }

  ghost predicate DroppedAt(ops: seq<Op>, n: nat, i: nat)
    requires n < |ops| && i < MAX_CLIENTS
  {
    DropsSlot(Run(ops[..n]), ops[n], i)
  }

  ghost predicate HandedOutAt(ops: seq<Op>, n: nat, i: nat)
    requires n < |ops|
  {
    HandsOut(Run(ops[..n]), ops[n], i)
  }

  /** Some broadcast dropped slot i and nobody was given it since. */
  ghost predicate DroppedAndUnused(ops: seq<Op>, i: nat)
    requires i < MAX_CLIENTS
  {
    exists n :: 0 <= n < |ops| && DroppedAt(ops, n, i) && forall m :: n < m < |ops| ==> !HandedOutAt(ops, m, i)
  }

  lemma SameHistory(ops: seq<Op>, n: nat, i: nat)
    requires n < |ops| - 1 && i < MAX_CLIENTS
    ensures var before := ops[..|ops| - 1];
            && (DroppedAt(before, n, i) <==> DroppedAt(ops, n, i))
            && (HandedOutAt(before, n, i) <==> HandedOutAt(ops, n, i))
  {
    assert ops[..|ops| - 1][..n] == ops[..n];
  }

  /** The two predicates as bits, so that only their values matter. */
  ghost predicate LastSet(dropped: seq<bool>, used: seq<bool>)
    requires |dropped| == |used|
  {
    exists n :: 0 <= n < |dropped| && dropped[n] && forall m :: n < m < |used| ==> !used[m]
  }

  lemma LastSetOfLonger(dropped: seq<bool>, used: seq<bool>, d: bool, u: bool)
    requires |dropped| == |used|
    ensures LastSet(dropped + [d], used + [u]) <==> d || (LastSet(dropped, used) && !u)
  {
    var (ds, us) := (dropped + [d], used + [u]);
    if LastSet(dropped, used) && !u {
      var n :| 0 <= n < |dropped| && dropped[n] && forall m :: n < m < |used| ==> !used[m];
      assert ds[n] && forall m :: n < m < |us| ==> !us[m];
    }
    if d {
      assert ds[|dropped|];
    }
    if LastSet(ds, us) {
      var n :| 0 <= n < |ds| && ds[n] && forall m :: n < m < |us| ==> !us[m];
      assert n < |dropped| ==> !us[|dropped|];
      assert forall m :: 0 <= m < |used| ==> us[m] == used[m];
      assert n < |dropped| ==> dropped[n];
    }
  }

  ghost function DropBits(ops: seq<Op>, i: nat): seq<bool>
    requires i < MAX_CLIENTS
  {
    seq(|ops|, n requires 0 <= n < |ops| => DroppedAt(ops, n, i))
  }

  ghost function UseBits(ops: seq<Op>, i: nat): seq<bool> {
    seq(|ops|, n requires 0 <= n < |ops| => HandedOutAt(ops, n, i))
  }

  lemma BitsSayIt(ops: seq<Op>, i: nat)
    requires i < MAX_CLIENTS
    ensures DroppedAndUnused(ops, i) <==> LastSet(DropBits(ops, i), UseBits(ops, i))
  {
    var (ds, us) := (DropBits(ops, i), UseBits(ops, i));
    if DroppedAndUnused(ops, i) {
      var n :| 0 <= n < |ops| && DroppedAt(ops, n, i) && forall m :: n < m < |ops| ==> !HandedOutAt(ops, m, i);
      assert ds[n] && forall m :: n < m < |us| ==> !us[m];
    }
    if LastSet(ds, us) {
      var n :| 0 <= n < |ds| && ds[n] && forall m :: n < m < |us| ==> !us[m];
      assert DroppedAt(ops, n, i) && forall m :: n < m < |ops| ==> us[m] == HandedOutAt(ops, m, i);
    }
  }

  lemma PrefixDropped(ops: seq<Op>, i: nat)
    requires ops != [] && i < MAX_CLIENTS
    ensures var before := ops[..|ops| - 1]; var last := |ops| - 1;
            DroppedAndUnused(ops, i) <==>
            DroppedAt(ops, last, i) || (DroppedAndUnused(before, i) && !HandedOutAt(ops, last, i))
  {
    var last := |ops| - 1;
    var before := ops[..last];
    var (d, u) := (DroppedAt(ops, last, i), HandedOutAt(ops, last, i));
    forall n | 0 <= n < last
      ensures DropBits(ops, i)[n] == DropBits(before, i)[n]
      ensures UseBits(ops, i)[n] == UseBits(before, i)[n]
    {
      SameHistory(ops, n, i);
    }
    assert DropBits(ops, i) == DropBits(before, i) + [d] && UseBits(ops, i) == UseBits(before, i) + [u];
    LastSetOfLonger(DropBits(before, i), UseBits(before, i), d, u);
    BitsSayIt(ops, i);
    BitsSayIt(before, i);
  }

  /**
   In every run, the slots whose reuse makes the counter drift are exactly those dropped by a failed
   broadcast send and unused since.
   */
  lemma {:induction false} LeftoverExactlyDropped(ops: seq<Op>, i: nat)
    requires i < MAX_CLIENTS
    ensures Leftover(Run(ops), i) <==> DroppedAndUnused(ops, i)
  {
    if ops != [] {
      var last := |ops| - 1;
      LeftoverExactlyDropped(ops[..last], i);
      EveryRunKeepsBooks(ops[..last]);
      LeftoverStep(Run(ops[..last]), ops[last], i);
      PrefixDropped(ops, i);
    }
  }

  // ---------------------------------------------------------------- the tables in place

  class Manager {
    const clients: array<Session>
    const contexts: array<bool>
    var clientCount: int
    var numContexts: nat
    ghost var replaced: nat

    ghost predicate Sized()
      reads this
    {
      clients.Length == MAX_CLIENTS && contexts.Length == MAX_CLIENTS
    }

    ghost function State(): Slots
      reads this, clients, contexts
    {
      Slots(clients[..], clientCount, contexts[..], numContexts, replaced)
    }

    constructor ()
      ensures Sized() && fresh(clients) && fresh(contexts) && State() == NoClients()
    {
      clients := new Session[MAX_CLIENTS](_ => Cleared());
      contexts := new bool[MAX_CLIENTS](_ => false);
      clientCount, numContexts, replaced := 0, 0, 0;
      new;
      assert clients[..] == NoClients().sessions;
      assert contexts[..] == NoClients().contexts;
    }

    method AddNewClient(granted: bool) returns (c: int)
      requires Sized()
      modifies this, clients, contexts
      ensures (State(), c) == AddClient(old(State()), granted)
    {
      var i := 0;
      while i < MAX_CLIENTS && clients[i].active
        invariant 0 <= i <= MAX_CLIENTS
        invariant forall m :: 0 <= m < i ==> !IsInactive(clients[m])
      {
        i := i + 1;
      }
      FirstIs(clients[..], IsInactive, i);
      if i == MAX_CLIENTS {
        return NO_CLIENT;
      }
      clients[i] := Connecting();
      if contexts[i] {
        replaced := replaced + 1;
      }
      contexts[i] := granted;
      if !granted {
        clients[i] := Cleared();
        assert clients[..] == old(clients[..])[i := Cleared()];
        return NO_CLIENT;
      }
      numContexts := (numContexts + 1) % U32;
      clientCount := clientCount + 1;
      c := i;
    }

    method Disconnect(c: int)
      requires Sized()
      modifies this, clients, contexts
      ensures State() == RemoveClient(old(State()), c)
    {
      if 0 <= c < MAX_CLIENTS && clients[c].active {
        if contexts[c] {
          contexts[c] := false;
          numContexts := Decremented(numContexts);
        }
        clients[c] := Cleared();
        clientCount := clientCount - 1;
        assert contexts[..] == old(contexts[..])[c := false];
      }
    }

    method BroadcastMessage(sender: int, failing: set<nat>) returns (sent: seq<int>)
      requires Sized()
      modifies this, clients
      ensures State() == Broadcast(old(State()), MAX_CLIENTS, sender, failing)
      ensures sent == Reached(old(State()), MAX_CLIENTS, sender, failing)
    {
      sent := [];
      for i := 0 to MAX_CLIENTS
        invariant Sized() && forall m :: i <= m < MAX_CLIENTS ==> clients[m] == old(clients[m])
        invariant sent == Reached(old(State()), i, sender, failing)
        invariant State() == Broadcast(old(State()), i, sender, failing)
      {
        if clients[i].active && i != sender {
          if i in failing {
            clients[i] := Cleared();
            clientCount := clientCount - 1;
          } else {
            sent := sent + [i];
          }
        }
      }
    }
  }
}

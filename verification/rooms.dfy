/** The server's room table: 50 room slots of 20 member slots, with the counters kept beside them. */
module RoomTable {
  import opened Text
  import opened Counting

  const MAX_ROOMS := 50
  const MAX_MEMBERS := 20
  const ID_LENGTH := 6
  const NAME_SIZE := 64
  const FREE := -1

  datatype Room = Room(id: string, name: string, clientIds: seq<int>, clientCount: int, active: bool)

  datatype Table = Table(rooms: seq<Room>, count: int)

  function Vacant(): Room {
    Room("", "", seq(MAX_MEMBERS, _ => FREE), 0, false)
  }

  function Empty(): Table {
    Table(seq(MAX_ROOMS, _ => Vacant()), 0)
  }

  predicate Taken(id: int) {
    id != FREE
  }

  predicate IsFree(id: int) {
    id == FREE
  }

  predicate IsActive(r: Room) {
    r.active
  }

  predicate IsInactive(r: Room) {
    !r.active
  }

  function HasId(id: string): Room -> bool {
    (r: Room) => r.active && r.id == id
  }

  // ---------------------------------------------------------------- the critical sections as functions

  datatype AddOutcome = Added | BadClient | AlreadyMember | RoomFull | NoFreeSlot

  function Add(r: Room, c: int): (Room, AddOutcome) {
    if c < 0 then (r, BadClient)
    else if c in r.clientIds then (r, AlreadyMember)
    else if r.clientCount >= MAX_MEMBERS then (r, RoomFull)
    else
      var i := First(r.clientIds, IsFree);
      if i == |r.clientIds| then (r, NoFreeSlot)
      else (r.(clientIds := r.clientIds[i := c], clientCount := r.clientCount + 1), Added)
  }

  function Is(c: int): int -> bool {
    (x: int) => x == c
  }

  function Remove(r: Room, c: int): (Room, bool) {
    var i := First(r.clientIds, Is(c));
    if c < 0 || i == |r.clientIds| then (r, false)
    else (r.(clientIds := r.clientIds[i := FREE], clientCount := r.clientCount - 1), true)
  }

  function Opened(id: string, name: string): Room {
    Room(Truncated(id, ID_LENGTH), Truncated(name, NAME_SIZE - 1), seq(MAX_MEMBERS, _ => FREE), 0, true)
  }

  datatype CreateOutcome = Created(slot: nat) | TooManyRooms | NoFreeRoom

  /** room_manager_create_room, the generated id being an input. */
  function Create(t: Table, id: string, name: string, c: int): (Table, CreateOutcome) {
    if t.count >= MAX_ROOMS then (t, TooManyRooms)
    else
      var k := First(t.rooms, IsInactive);
      if k == |t.rooms| then (t, NoFreeRoom)
      else (Table(t.rooms[k := Add(Opened(id, name), c).0], t.count + 1), Created(k))
  }

  datatype JoinOutcome = NoSuchRoom | Tried(slot: nat, outcome: AddOutcome)

  function Join(t: Table, id: string, c: int): (Table, JoinOutcome) {
    var k := First(t.rooms, HasId(id));
    if k == |t.rooms| then (t, NoSuchRoom)
    else
      var (r, out) := Add(t.rooms[k], c);
      (t.(rooms := t.rooms[k := r]), Tried(k, out))
  }

  datatype LeaveOutcome = NotFound | NotMember | Left | Closed

  function Leave(t: Table, id: string, c: int): (Table, LeaveOutcome) {
    var k := First(t.rooms, HasId(id));
    if k == |t.rooms| then (t, NotFound)
    else
      var (r, ok) := Remove(t.rooms[k], c);
      if r.clientCount == 0 then (Table(t.rooms[k := Vacant()], t.count - 1), if ok then Closed else NotMember)
      else (t.(rooms := t.rooms[k := r]), if ok then Left else NotMember)
  }

  /** The members a broadcast reaches, in slot order: not the sender, session active, send successful. */
  function Recipients(ids: seq<int>, sender: int, reachable: set<int>): seq<int> {
    if ids == [] then []
    else
      var n := |ids| - 1;
      var front := Recipients(ids[..n], sender, reachable);
      if ids[n] != FREE && ids[n] != sender && ids[n] in reachable then front + [ids[n]] else front
  }

  function Broadcast(t: Table, id: string, sender: int, reachable: set<int>): seq<int> {
    var k := First(t.rooms, HasId(id));
    if k == |t.rooms| then [] else Recipients(t.rooms[k].clientIds, sender, reachable)
  }

  lemma {:induction false} RecipientsAre(ids: seq<int>, sender: int, reachable: set<int>)
    ensures forall x :: x in Recipients(ids, sender, reachable) <==>
              x in ids && x != FREE && x != sender && x in reachable
  {
    if ids == [] {
    } else {
      var n := |ids| - 1;
      RecipientsAre(ids[..n], sender, reachable);
      assert ids == ids[..n] + [ids[n]];
    }
  }

  // ---------------------------------------------------------------- the counting invariant

  ghost predicate DistinctMembers(ids: seq<int>) {
    forall i, j :: 0 <= i < j < |ids| && ids[i] == ids[j] ==> ids[i] == FREE
  }

  /** Distinct non-negative members, counted exactly. */
  ghost predicate WellCounted(r: Room) {
    && |r.clientIds| == MAX_MEMBERS
    && (forall i :: 0 <= i < MAX_MEMBERS ==> r.clientIds[i] >= FREE)
    && DistinctMembers(r.clientIds)
    && r.clientCount == Count(r.clientIds, Taken)
  }

  ghost predicate ValidRoom(r: Room) {
    && WellCounted(r)
    && if r.active then r.clientCount >= 1 && |r.id| == ID_LENGTH && |r.name| < NAME_SIZE else r == Vacant()
  }

  ghost predicate RoomOk(t: Table, k: int) {
    0 <= k < |t.rooms| ==> ValidRoom(t.rooms[k])
  }

  ghost predicate Valid(t: Table) {
    && |t.rooms| == MAX_ROOMS
    && (forall k :: RoomOk(t, k))
    && t.count == Count(t.rooms, IsActive)
  }

  lemma BlankIsCounted(id: string, name: string)
    ensures WellCounted(Opened(id, name)) && ValidRoom(Vacant())
  {
    CountExtremes(seq(MAX_MEMBERS, _ => FREE), Taken);
  }

  lemma EmptyIsValid()
    ensures Valid(Empty())
  {
    BlankIsCounted("", "");
    CountExtremes(Empty().rooms, IsActive);
  }

  /** Adding succeeds exactly for a new non-negative client and a room not yet full; the scan never comes up empty. */
  lemma {:induction false} AddCounts(r: Room, c: int)
    requires WellCounted(r)
    ensures var (s, out) := Add(r, c);
            && WellCounted(s) && s.id == r.id && s.name == r.name && s.active == r.active
            && out != NoFreeSlot
            && (out == Added <==> c >= 0 && c !in r.clientIds && r.clientCount < MAX_MEMBERS)
            && (out == Added ==> s.clientCount == r.clientCount + 1)
            && (out != Added ==> s == r)
            && forall d :: d >= 0 ==> (d in s.clientIds <==> d in r.clientIds || (out == Added && d == c))
  {
    CountExtremes(r.clientIds, Taken);
    var (s, out) := Add(r, c);
    if out == Added {
      var i := First(r.clientIds, IsFree);
      CountUpdate(r.clientIds, i, c, Taken);
      UpdateMembers(r.clientIds, i, c);
    }
  }

  lemma UpdateMembers(ids: seq<int>, i: nat, c: int)
    requires i < |ids|
    requires DistinctMembers(ids)
    ensures forall d :: d in ids[i := c] ==> d in ids || d == c
    ensures forall d :: d in ids && d != ids[i] ==> d in ids[i := c]
    ensures c in ids[i := c]
    ensures ids[i] != FREE && c != ids[i] ==> ids[i] !in ids[i := c]
    ensures c == FREE || c !in ids ==> DistinctMembers(ids[i := c])
  {
    var newIds := ids[i := c];
    assert newIds[i] == c;
    forall d | d in ids && d != ids[i] ensures d in newIds {
      var m :| 0 <= m < |ids| && ids[m] == d;
      assert newIds[m] == d;
    }
    assert forall m :: 0 <= m < |ids| && m != i ==> newIds[m] == ids[m];
  }

  lemma {:induction false} RemoveCounts(r: Room, c: int)
    requires WellCounted(r)
    ensures var (s, ok) := Remove(r, c);
            && WellCounted(s) && s.id == r.id && s.name == r.name && s.active == r.active
            && (ok <==> c >= 0 && c in r.clientIds)
            && (ok ==> s.clientCount == r.clientCount - 1)
            && (!ok ==> s == r)
            && forall d :: d >= 0 ==> (d in s.clientIds <==> d in r.clientIds && d != c)
  {
    var (s, ok) := Remove(r, c);
    var i := First(r.clientIds, Is(c));
    if ok {
      CountUpdate(r.clientIds, i, FREE, Taken);
      UpdateMembers(r.clientIds, i, FREE);
    } else if c in r.clientIds {
      var m :| 0 <= m < |r.clientIds| && r.clientIds[m] == c;
      assert Is(c)(r.clientIds[m]);
    }
  }

  lemma SetRoom(t: Table, k: nat, r: Room)
    requires Valid(t) && k < MAX_ROOMS && ValidRoom(r)
    ensures Valid(Table(t.rooms[k := r], t.count - (if t.rooms[k].active then 1 else 0) + (if r.active then 1 else 0)))
  {
    CountUpdate(t.rooms, k, r, IsActive);
    var u := Table(t.rooms[k := r], t.count - (if t.rooms[k].active then 1 else 0) + (if r.active then 1 else 0));
    forall j ensures RoomOk(u, j) {
      assert RoomOk(t, j);
    }
  }

  /** Creating keeps the table valid; with a slot left it always finds one and the creator is its only member. */
  lemma {:induction false} CreateKeepsValid(t: Table, id: string, name: string, c: int)
    requires Valid(t) && c >= 0 && |id| == ID_LENGTH
    ensures var (u, out) := Create(t, id, name, c);
            && Valid(u)
            && out != NoFreeRoom
            && (out == TooManyRooms <==> forall k :: 0 <= k < MAX_ROOMS ==> t.rooms[k].active)
            && (out == TooManyRooms ==> u == t)
            && (out.Created? ==>
                && out.slot < MAX_ROOMS && !t.rooms[out.slot].active
                && u.rooms == t.rooms[out.slot := u.rooms[out.slot]]
                && u.rooms[out.slot].active && u.rooms[out.slot].id == id
                && forall d :: d >= 0 ==> (d in u.rooms[out.slot].clientIds <==> d == c))
  {
    CountExtremes(t.rooms, IsActive);
    var (u, out) := Create(t, id, name, c);
    if out.Created? {
      BlankIsCounted(id, name);
      AddCounts(Opened(id, name), c);
      SetRoom(t, out.slot, Add(Opened(id, name), c).0);
    }
  }

  lemma {:induction false} JoinKeepsValid(t: Table, id: string, c: int)
    requires Valid(t)
    ensures var (u, out) := Join(t, id, c);
            && Valid(u)
            && (out.NoSuchRoom? ==> u == t)
            && (out.NoSuchRoom? <==> forall k :: 0 <= k < MAX_ROOMS ==> !(t.rooms[k].active && t.rooms[k].id == id))
            && (out.Tried? ==>
                && (forall j :: 0 <= j < out.slot ==> !(t.rooms[j].active && t.rooms[j].id == id))
                && out.slot < MAX_ROOMS && out.outcome != NoFreeSlot
                && t.rooms[out.slot].active && t.rooms[out.slot].id == id
                && u.rooms == t.rooms[out.slot := u.rooms[out.slot]]
                && u.rooms[out.slot].active && u.rooms[out.slot].id == id
                && u.rooms[out.slot].name == t.rooms[out.slot].name
                && (out.outcome != Added ==> u == t)
                && (out.outcome == Added <==>
                    c >= 0 && c !in t.rooms[out.slot].clientIds && t.rooms[out.slot].clientCount < MAX_MEMBERS)
                && forall d :: d >= 0 ==>
                     (d in u.rooms[out.slot].clientIds <==>
                      d in t.rooms[out.slot].clientIds || (out.outcome == Added && d == c)))
  {
    var (u, out) := Join(t, id, c);
    forall j | 0 <= j < MAX_ROOMS ensures HasId(id)(t.rooms[j]) <==> t.rooms[j].active && t.rooms[j].id == id {
    }
    if out.Tried? {
      var k := out.slot;
      assert HasId(id)(t.rooms[k]);
      assert RoomOk(t, k);
      AddCounts(t.rooms[k], c);
      SetRoom(t, k, Add(t.rooms[k], c).0);
      if out.outcome != Added {
        assert t.rooms[k := t.rooms[k]] == t.rooms;
      }
    }
  }

  /** Leaving removes this client from the named room only, and closes the room exactly when it was alone there. */
  lemma {:induction false} LeaveKeepsValid(t: Table, id: string, c: int)
    requires Valid(t) && c >= 0
    ensures var (u, out) := Leave(t, id, c);
            && Valid(u)
            && (out == NotFound || out == NotMember ==> u == t)
            && var k := First(t.rooms, HasId(id));
            && (out == NotFound <==> k == MAX_ROOMS)
            && (k < MAX_ROOMS ==>
                && t.rooms[k].active && t.rooms[k].id == id
                && u.rooms == t.rooms[k := u.rooms[k]]
                && (out == Closed <==> c in t.rooms[k].clientIds && t.rooms[k].clientCount == 1)
                && (out == Closed ==> !u.rooms[k].active)
                && (out != Closed ==> u.rooms[k].active && u.rooms[k].id == id && u.rooms[k].name == t.rooms[k].name)
                && forall d :: d >= 0 ==> (d in u.rooms[k].clientIds <==> d in t.rooms[k].clientIds && d != c))
  {
    var k := First(t.rooms, HasId(id));
    if k < MAX_ROOMS {
      var r := t.rooms[k];
      assert HasId(id)(r) && RoomOk(t, k);
      RemoveCounts(r, c);
      var (s, ok) := Remove(r, c);
      BlankIsCounted("", "");
      if s.clientCount == 0 {
        CountExtremes(s.clientIds, Taken);
        SetRoom(t, k, Vacant());
      } else {
        SetRoom(t, k, s);
        if !ok {
          assert t.rooms[k := r] == t.rooms;
        }
      }
    }
  }

  /** What one client's operation may do to everybody else: nothing. */
  ghost predicate KeepsOthers(t: Table, u: Table, c: int)
    requires |t.rooms| == |u.rooms| == MAX_ROOMS
  {
    forall k, d :: 0 <= k < MAX_ROOMS && d >= 0 && d != c ==>
      && (d in t.rooms[k].clientIds <==> d in u.rooms[k].clientIds)
      && (d in t.rooms[k].clientIds ==>
          u.rooms[k].active && u.rooms[k].id == t.rooms[k].id && u.rooms[k].name == t.rooms[k].name)
  }

  lemma MembersMeanActive(t: Table)
    requires Valid(t)
    ensures forall k, d :: 0 <= k < MAX_ROOMS && d >= 0 && d in t.rooms[k].clientIds ==> t.rooms[k].active
  {
    forall k, d | 0 <= k < MAX_ROOMS && d >= 0 && d in t.rooms[k].clientIds ensures t.rooms[k].active {
      assert RoomOk(t, k);
    }
  }

  lemma {:induction false} CreateKeepsOthers(t: Table, id: string, name: string, c: int)
    requires Valid(t) && c >= 0 && |id| == ID_LENGTH
    ensures Valid(Create(t, id, name, c).0) && KeepsOthers(t, Create(t, id, name, c).0, c)
  {
    CreateKeepsValid(t, id, name, c);
    MembersMeanActive(t);
  }

  lemma {:induction false} JoinKeepsOthers(t: Table, id: string, c: int)
    requires Valid(t) && c >= 0
    ensures Valid(Join(t, id, c).0) && KeepsOthers(t, Join(t, id, c).0, c)
  {
    JoinKeepsValid(t, id, c);
    MembersMeanActive(t);
  }

  lemma {:induction false} LeaveKeepsOthers(t: Table, id: string, c: int)
    requires Valid(t) && c >= 0
    ensures Valid(Leave(t, id, c).0) && KeepsOthers(t, Leave(t, id, c).0, c)
  {
    LeaveKeepsValid(t, id, c);
    MembersMeanActive(t);
    MembersMeanActive(Leave(t, id, c).0);
    var k := First(t.rooms, HasId(id));
    if k < MAX_ROOMS {
      forall d | d >= 0 && d != c && d in t.rooms[k].clientIds ensures Leave(t, id, c).1 != Closed {
        if c in t.rooms[k].clientIds {
          assert RoomOk(t, k);
          MoreThanOne(t.rooms[k], c, d);
        }
      }
    }
  }

  lemma MoreThanOne(r: Room, c: int, d: int)
    requires WellCounted(r) && c >= 0 && d >= 0 && c != d && d in r.clientIds && c in r.clientIds
    ensures r.clientCount > 1
  {
    RemoveCounts(r, c);
    var s := Remove(r, c).0;
    CountExtremes(s.clientIds, Taken);
    var m :| 0 <= m < |s.clientIds| && s.clientIds[m] == d;
    assert Taken(s.clientIds[m]);
  }
}

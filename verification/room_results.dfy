/** The complete result of each room operation, in terms of the slots and fields alone. */
module RoomResults {
  import opened Text
  import opened Counting
  import opened RoomTable

  predicate Bears(r: Room, id: string) {
    r.active && r.id == id
  }

  /** Slot k is the first to hold an active room with this id. */
  predicate FirstBearing(t: Table, id: string, k: int) {
    && 0 <= k < |t.rooms| && Bears(t.rooms[k], id)
    && forall j :: 0 <= j < k ==> !Bears(t.rooms[j], id)
  }

  predicate NoneBears(t: Table, id: string) {
    forall k :: 0 <= k < |t.rooms| ==> !Bears(t.rooms[k], id)
  }

  /** Client m is listed in the first active room with this id. */
  ghost predicate ListedIn(t: Table, id: string, m: int) {
    exists k :: FirstBearing(t, id, k) && m in t.rooms[k].clientIds
  }

  /** Where the search for an id ends up. */
  lemma SearchFinds(t: Table, id: string)
    ensures First(t.rooms, HasId(id)) == |t.rooms| <==> NoneBears(t, id)
    ensures forall k :: FirstBearing(t, id, k) ==> First(t.rooms, HasId(id)) == k
    ensures First(t.rooms, HasId(id)) < |t.rooms| ==> FirstBearing(t, id, First(t.rooms, HasId(id)))
  {
    var k := First(t.rooms, HasId(id));
    forall j | 0 <= j < |t.rooms| ensures HasId(id)(t.rooms[j]) <==> Bears(t.rooms[j], id) {
    }
    forall j | FirstBearing(t, id, j) ensures k == j {
      assert k <= j ==> k == j;
    }
  }

  /** Client c takes the first free member slot. */
  ghost predicate TakesFirstFree(r: Room, s: Room, c: int) {
    exists i :: 0 <= i < |r.clientIds| && r.clientIds[i] == FREE && (forall j :: 0 <= j < i ==> r.clientIds[j] != FREE)
             && s == r.(clientIds := r.clientIds[i := c], clientCount := r.clientCount + 1)
  }

  /** Client c's member slot becomes free. */
  ghost predicate FreesSlot(r: Room, s: Room, c: int) {
    exists i :: 0 <= i < |r.clientIds| && r.clientIds[i] == c
             && s == r.(clientIds := r.clientIds[i := FREE], clientCount := r.clientCount - 1)
  }

  lemma AddExactly(r: Room, c: int)
    requires WellCounted(r)
    ensures Add(r, c).1 == if c < 0 then BadClient
                           else if c in r.clientIds then AlreadyMember
                           else if r.clientCount >= MAX_MEMBERS then RoomFull
                           else Added
    ensures if Add(r, c).1 == Added then TakesFirstFree(r, Add(r, c).0, c) else Add(r, c).0 == r
  {
    AddCounts(r, c);
    if Add(r, c).1 == Added {
      var i := First(r.clientIds, IsFree);
      assert IsFree(r.clientIds[i]);
      assert r.clientIds[i] == FREE && forall j :: 0 <= j < i ==> !IsFree(r.clientIds[j]);
    }
  }

  lemma RemoveExactly(r: Room, c: int)
    requires WellCounted(r) && c >= 0
    ensures Remove(r, c).1 <==> c in r.clientIds
    ensures if c in r.clientIds then FreesSlot(r, Remove(r, c).0, c) else Remove(r, c).0 == r
  {
    RemoveCounts(r, c);
    if c in r.clientIds {
      assert Is(c)(r.clientIds[First(r.clientIds, Is(c))]);
    }
  }

  /**
   Joining answers "no such room" exactly when no active room has the id; otherwise the first such
   room is tried, and a newcomer to a room below 20 members is always added, in its first free slot.
   */
  lemma {:induction false} JoinExactly(t: Table, id: string, c: int)
    requires Valid(t)
    ensures Join(t, id, c).1 == NoSuchRoom <==> NoneBears(t, id)
    ensures NoneBears(t, id) ==> Join(t, id, c).0 == t
    ensures forall k :: FirstBearing(t, id, k) ==>
              var (u, out) := Join(t, id, c); var r := t.rooms[k];
              && out == Tried(k, if c < 0 then BadClient
                                 else if c in r.clientIds then AlreadyMember
                                 else if r.clientCount >= MAX_MEMBERS then RoomFull
                                 else Added)
              && (if out.outcome == Added
                  then u == t.(rooms := t.rooms[k := u.rooms[k]]) && TakesFirstFree(r, u.rooms[k], c)
                  else u == t)
  {
    SearchFinds(t, id);
    forall k | FirstBearing(t, id, k) ensures k == First(t.rooms, HasId(id)) && RoomOk(t, k) {
    }
    var k := First(t.rooms, HasId(id));
    if k < |t.rooms| {
      assert RoomOk(t, k);
      AddExactly(t.rooms[k], c);
      assert t.rooms[k := t.rooms[k]] == t.rooms;
    }
  }

  /**
   Leaving frees the member slot in the first active room with the id, or vacates the room when this was
   its only member; without such a room, or for a client not in it, nothing changes.
   */
  lemma {:induction false} LeaveExactly(t: Table, id: string, c: int)
    requires Valid(t) && c >= 0
    ensures Leave(t, id, c).1 == NotFound <==> NoneBears(t, id)
    ensures NoneBears(t, id) ==> Leave(t, id, c).0 == t
    ensures forall k :: FirstBearing(t, id, k) ==>
              var (u, out) := Leave(t, id, c); var r := t.rooms[k];
              && out == (if c !in r.clientIds then NotMember else if r.clientCount == 1 then Closed else Left)
              && (out == NotMember ==> u == t)
              && (out == Closed ==> u == Table(t.rooms[k := Vacant()], t.count - 1))
              && (out == Left ==> u == t.(rooms := t.rooms[k := u.rooms[k]]) && FreesSlot(r, u.rooms[k], c))
  {
    SearchFinds(t, id);
    var k := First(t.rooms, HasId(id));
    if k < |t.rooms| {
      assert RoomOk(t, k);
      RemoveExactly(t.rooms[k], c);
      RemoveCounts(t.rooms[k], c);
      LeaveKeepsValid(t, id, c);
    }
  }

  /** The fields of a vacated room. */
  lemma VacantIs(k: nat)
    requires k < MAX_MEMBERS
    ensures !Vacant().active && Vacant().id == "" && Vacant().name == "" && Vacant().clientCount == 0
    ensures |Vacant().clientIds| == MAX_MEMBERS && Vacant().clientIds[k] == FREE
  {
  }

  /**
   Creating fails exactly when all 50 slots are active; otherwise the first inactive slot holds the new
   room, with the given id and name and the creator in its first member slot.
   */
  lemma {:induction false} CreateExactly(t: Table, id: string, name: string, c: int)
    requires Valid(t) && c >= 0 && |id| == ID_LENGTH && |name| < NAME_SIZE
    ensures Create(t, id, name, c).1 == TooManyRooms <==> forall k :: 0 <= k < MAX_ROOMS ==> t.rooms[k].active
    ensures Create(t, id, name, c).1 == TooManyRooms ==> Create(t, id, name, c).0 == t
    ensures var (u, out) := Create(t, id, name, c);
            out != TooManyRooms ==>
              && out.Created? && out.slot < MAX_ROOMS && !t.rooms[out.slot].active
              && (forall j :: 0 <= j < out.slot ==> t.rooms[j].active)
              && u.rooms == t.rooms[out.slot := Room(id, name, [c] + seq(MAX_MEMBERS - 1, _ => FREE), 1, true)]
              && u.count == t.count + 1
  {
    CreateKeepsValid(t, id, name, c);
    var (u, out) := Create(t, id, name, c);
    if out.Created? {
      forall j | 0 <= j < out.slot ensures t.rooms[j].active {
        assert !IsInactive(t.rooms[j]);
      }
      NewRoomIs(id, name, c);
    }
  }

  lemma NewRoomIs(id: string, name: string, c: int)
    requires c >= 0 && |id| == ID_LENGTH && |name| < NAME_SIZE
    ensures Add(Opened(id, name), c).0 == Room(id, name, [c] + seq(MAX_MEMBERS - 1, _ => FREE), 1, true)
  {
    var ids := Opened(id, name).clientIds;
    assert c !in ids;
    assert IsFree(ids[0]);
    FirstIs(ids, IsFree, 0);
    assert ids[0 := c] == [c] + seq(MAX_MEMBERS - 1, _ => FREE);
  }

  /** Recipients come in slot order; members being distinct, nobody is sent a message twice. */
  lemma {:induction false} RecipientsInOrder(ids: seq<int>, sender: int, reachable: set<int>, a: nat, b: nat)
    requires a < b < |Recipients(ids, sender, reachable)|
    ensures var sent := Recipients(ids, sender, reachable);
            exists i, j :: 0 <= i < j < |ids| && ids[i] == sent[a] && ids[j] == sent[b]
  {
    var n := |ids| - 1;
    var front := Recipients(ids[..n], sender, reachable);
    var sent := Recipients(ids, sender, reachable);
    if b < |front| {
      RecipientsInOrder(ids[..n], sender, reachable, a, b);
      var i, j :| 0 <= i < j < n && ids[..n][i] == front[a] && ids[..n][j] == front[b];
      assert ids[i] == sent[a] && ids[j] == sent[b];
    } else {
      RecipientsAre(ids[..n], sender, reachable);
      assert front[a] in front;
      var i :| 0 <= i < n && ids[..n][i] == front[a];
      assert ids[i] == sent[a] && ids[n] == sent[b];
    }
  }

  lemma NobodyTwice(ids: seq<int>, sender: int, reachable: set<int>, a: nat, b: nat)
    requires DistinctMembers(ids) && a < b < |Recipients(ids, sender, reachable)|
    ensures Recipients(ids, sender, reachable)[a] != Recipients(ids, sender, reachable)[b]
  {
    RecipientsInOrder(ids, sender, reachable, a, b);
    var sent := Recipients(ids, sender, reachable);
    var i, j :| 0 <= i < j < |ids| && ids[i] == sent[a] && ids[j] == sent[b];
    RecipientsAre(ids, sender, reachable);
    assert sent[a] in sent;
  }

  /** A broadcast to an id reaches exactly the members of the first active room with it, each once and in slot order. */
  lemma {:induction false} BroadcastExactly(t: Table, id: string, sender: int, reachable: set<int>)
    requires Valid(t)
    ensures var sent := Broadcast(t, id, sender, reachable);
            && (forall m :: m in sent <==> m != FREE && m != sender && m in reachable && ListedIn(t, id, m))
            && (forall a, b :: 0 <= a < b < |sent| ==> sent[a] != sent[b])
  {
    SearchFinds(t, id);
    var k := First(t.rooms, HasId(id));
    if k < |t.rooms| {
      var ids := t.rooms[k].clientIds;
      assert RoomOk(t, k);
      RecipientsAre(ids, sender, reachable);
      forall a, b | 0 <= a < b < |Recipients(ids, sender, reachable)|
        ensures Recipients(ids, sender, reachable)[a] != Recipients(ids, sender, reachable)[b]
      {
        NobodyTwice(ids, sender, reachable, a, b);
      }
    }
  }
}

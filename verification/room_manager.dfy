/** The room manager in place: the search loops over the slot arrays, and the room listing. */
module RoomManager {
  import opened Text
  import opened Counting
  import opened RoomTable

  const U64 := 0x1_0000_0000_0000_0000

  // ---------------------------------------------------------------- the listing as a value

  const HEADER := "=== Active Rooms ===\n"
  const NONE := "No active rooms\n"
  const FOOTER := "==================\n"
  const LINE_BUFFER := 128
  const RESERVE := 100

  function Line(r: Room): string {
    "ID: " + r.id + " | Name: " + r.name + " | Users: " + Signed(r.clientCount) + "\n"
  }

  /** What a slot contributes. */
  function Piece(r: Room): string {
    if r.active then Line(r) else ""
  }

  function Lines(rooms: seq<Room>): string {
    if rooms == [] then ""
    else
      var n := |rooms| - 1;
      Lines(rooms[..n]) + Piece(rooms[n])
  }

  /** The reserve test of the loop, including its unsigned wrap-around for tiny buffers. */
  predicate RoomLeft(length: nat, size: nat) {
    length < (if size >= RESERVE then size - RESERVE else size - RESERVE + U64)
  }

  /** strncat into a buffer of this size, terminator reserved. */
  function Append(buffer: string, s: string, size: nat): (r: string)
    requires size > 0
  {
    Truncated(buffer + s, size - 1)
  }

  /** The listing loop from slot i on. */
  function Fill(rooms: seq<Room>, i: nat, buffer: string, size: nat): string
    requires i <= |rooms| && size > 0
    decreases |rooms| - i
  {
    if i == |rooms| || !RoomLeft(|buffer|, size) then buffer
    else
      var line := Truncated(Line(rooms[i]), LINE_BUFFER - 1);
      Fill(rooms, i + 1, if rooms[i].active then Append(buffer, line, size) else buffer, size)
  }

  function ListText(t: Table, size: nat): string
    requires size > 0
  {
    var top := Truncated(HEADER, size - 1);
    Append(if t.count == 0 then Append(top, NONE, size) else Fill(t.rooms, 0, top, size), FOOTER, size)
  }

  /** With at most 20 members the longest line has 95 characters. */
  lemma LineFits(r: Room)
    requires ValidRoom(r) && r.active
    ensures |Line(r)| <= 95
  {
  }

  /** The top line and the lines of the first n slots. */
  function Shown(top: string, rooms: seq<Room>, n: nat): string
    requires n <= |rooms|
  {
    top + Lines(rooms[..n])
  }

  lemma ShownStep(top: string, rooms: seq<Room>, i: nat)
    requires i < |rooms|
    ensures Shown(top, rooms, i + 1) == Shown(top, rooms, i) + Piece(rooms[i])
  {
    assert rooms[..i + 1][..i] == rooms[..i];
  }

  lemma FillStep(rooms: seq<Room>, i: nat, buffer: string, size: nat)
    requires i < |rooms| && size >= RESERVE && RoomLeft(|buffer|, size) && |Piece(rooms[i])| <= 95
    ensures |buffer + Piece(rooms[i])| < size
    ensures Fill(rooms, i, buffer, size) == Fill(rooms, i + 1, buffer + Piece(rooms[i]), size)
  {
    if !rooms[i].active {
      assert buffer + Piece(rooms[i]) == buffer;
    }
  }

  ghost predicate ShortPieces(rooms: seq<Room>) {
    forall k :: 0 <= k < |rooms| ==> |Piece(rooms[k])| <= 95
  }

  /** The prefix of the first n slots leaves the reserve of 100 bytes free. */
  predicate Spacious(top: string, rooms: seq<Room>, n: int, size: nat) {
    0 <= n <= |rooms| && |Shown(top, rooms, n)| + 100 < size
  }

  lemma FillStops(top: string, rooms: seq<Room>, i: nat, size: nat)
    requires i <= |rooms| && size >= RESERVE && (i < |rooms| ==> !Spacious(top, rooms, i, size))
    ensures Fill(rooms, i, Shown(top, rooms, i), size) == Shown(top, rooms, i)
  {
  }

  lemma FillGoesOn(top: string, rooms: seq<Room>, i: nat, size: nat)
    requires ShortPieces(rooms) && i < |rooms| && size >= RESERVE && Spacious(top, rooms, i, size)
    ensures |Shown(top, rooms, i + 1)| < size
    ensures Fill(rooms, i, Shown(top, rooms, i), size) == Fill(rooms, i + 1, Shown(top, rooms, i + 1), size)
  {
    FillStep(rooms, i, Shown(top, rooms, i), size);
    ShownStep(top, rooms, i);
  }

  /** The scan from slot i stops after `shown` slots: at the first prefix that leaves no reserve, if any. */
  ghost predicate StopsAt(top: string, rooms: seq<Room>, i: nat, size: nat, shown: nat) {
    && i <= shown <= |rooms| && |Shown(top, rooms, shown)| < size
    && (forall n :: i <= n < shown ==> Spacious(top, rooms, n, size))
    && (shown < |rooms| ==> !Spacious(top, rooms, shown, size))
  }

  lemma StopsAtEarlier(top: string, rooms: seq<Room>, i: nat, size: nat, shown: nat)
    requires StopsAt(top, rooms, i + 1, size, shown) && Spacious(top, rooms, i, size)
    ensures StopsAt(top, rooms, i, size, shown)
  {
    forall n | i <= n < shown ensures Spacious(top, rooms, n, size) {
      assert n > i ==> Spacious(top, rooms, n, size);
    }
  }

  lemma {:induction false} FillKeepsLinesWhole(top: string, rooms: seq<Room>, i: nat, size: nat) returns (shown: nat)
    requires ShortPieces(rooms) && i <= |rooms| && size >= RESERVE && |Shown(top, rooms, i)| < size
    ensures StopsAt(top, rooms, i, size, shown)
    ensures Fill(rooms, i, Shown(top, rooms, i), size) == Shown(top, rooms, shown)
    decreases |rooms| - i
  {
    if i == |rooms| || !Spacious(top, rooms, i, size) {
      FillStops(top, rooms, i, size);
      shown := i;
    } else {
      FillGoesOn(top, rooms, i, size);
      shown := FillKeepsLinesWhole(top, rooms, i + 1, size);
      StopsAtEarlier(top, rooms, i, size, shown);
    }
  }

  lemma PieceFits(r: Room)
    requires ValidRoom(r)
    ensures |Piece(r)| <= 95
  {
    if r.active {
      LineFits(r);
    }
  }

  /**
   On a valid table and any buffer of at least 100 bytes the listing is the header, whole lines for
   the active rooms of a slot prefix with their true counts, and the footer; only the footer is ever cut.
   */
  lemma {:induction false} ListingIsWhole(t: Table, size: nat) returns (shown: nat)
    requires Valid(t) && size >= RESERVE
    ensures StopsAt(HEADER, t.rooms, 0, size, shown)
    ensures ListText(t, size)
         == Append(if t.count == 0 then HEADER + NONE else Shown(HEADER, t.rooms, shown), FOOTER, size)
    ensures t.count == 0 <==> forall k :: 0 <= k < MAX_ROOMS ==> !t.rooms[k].active
  {
    CountExtremes(t.rooms, IsActive);
    assert t.rooms[..0] == [];
    assert Shown(HEADER, t.rooms, 0) == HEADER;
    forall k | 0 <= k < MAX_ROOMS ensures |Piece(t.rooms[k])| <= 95 {
      assert RoomOk(t, k);
      PieceFits(t.rooms[k]);
    }
    shown := FillKeepsLinesWhole(HEADER, t.rooms, 0, size);
  }

  lemma CutTwice(a: string, b: string, n: nat)
    ensures Truncated(Truncated(a, n) + b, n) == Truncated(a + b, n)
  {
  }

  /** What a tiny buffer holds after the first n slots. */
  function CutShown(top: string, rooms: seq<Room>, n: nat, size: nat): (r: string)
    requires n <= |rooms| && size > 0
    ensures |r| < size
  {
    Truncated(Shown(top, rooms, n), size - 1)
  }

  lemma CutShownStep(top: string, rooms: seq<Room>, i: nat, size: nat)
    requires i < |rooms| && size > 0
    ensures CutShown(top, rooms, i + 1, size) == Truncated(CutShown(top, rooms, i, size) + Piece(rooms[i]), size - 1)
  {
    ShownStep(top, rooms, i);
    CutTwice(Shown(top, rooms, i), Piece(rooms[i]), size - 1);
  }

  lemma {:induction false} FillCutsTiny(top: string, rooms: seq<Room>, i: nat, size: nat)
    requires ShortPieces(rooms) && i <= |rooms| && 0 < size < RESERVE
    ensures Fill(rooms, i, CutShown(top, rooms, i, size), size) == CutShown(top, rooms, |rooms|, size)
    decreases |rooms| - i
  {
    if i < |rooms| {
      FillCutsTiny(top, rooms, i + 1, size);
      CutShownStep(top, rooms, i, size);
      TinyStep(rooms, i, CutShown(top, rooms, i, size), size);
    }
  }

  lemma TinyStep(rooms: seq<Room>, i: nat, buffer: string, size: nat)
    requires i < |rooms| && 0 < size < RESERVE && |buffer| < size && |Piece(rooms[i])| <= 95
    ensures Fill(rooms, i, buffer, size) == Fill(rooms, i + 1, Truncated(buffer + Piece(rooms[i]), size - 1), size)
  {
    if !rooms[i].active {
      assert buffer + Piece(rooms[i]) == buffer;
    }
  }

  /**
   Below 100 bytes the reserve test wraps around and never stops the loop: the listing is then the
   whole text, every active room included, cut to what fits.
   */
  lemma {:induction false} TinyListingIsCut(t: Table, size: nat)
    requires Valid(t) && 0 < size < RESERVE
    ensures ListText(t, size)
         == Truncated(HEADER + (if t.count == 0 then NONE else Lines(t.rooms)) + FOOTER, size - 1)
  {
    assert t.rooms[..0] == [] && t.rooms[..MAX_ROOMS] == t.rooms;
    assert Shown(HEADER, t.rooms, 0) == HEADER;
    forall k | 0 <= k < MAX_ROOMS ensures |Piece(t.rooms[k])| <= 95 {
      assert RoomOk(t, k);
      PieceFits(t.rooms[k]);
    }
    FillCutsTiny(HEADER, t.rooms, 0, size);
    CutTwice(HEADER, NONE, size - 1);
    CutTwice(HEADER + (if t.count == 0 then NONE else Lines(t.rooms)), FOOTER, size - 1);
  }

  // ---------------------------------------------------------------- the manager

  class Manager {
    const rooms: array<Room>
    var roomCount: int

    ghost predicate Shaped()
      reads this, rooms
    {
      rooms.Length == MAX_ROOMS && forall k :: 0 <= k < MAX_ROOMS ==> |rooms[k].clientIds| == MAX_MEMBERS
    }

    ghost function State(): Table
      reads this, rooms
    {
      Table(rooms[..], roomCount)
    }

    constructor ()
      ensures Shaped() && fresh(rooms) && State() == Empty()
    {
      rooms := new Room[MAX_ROOMS](_ => Vacant());
      roomCount := 0;
      new;
      assert rooms[..] == Empty().rooms;
    }

    method FindRoom(id: string) returns (k: nat)
      requires Shaped()
      ensures k == First(rooms[..], HasId(id))
    {
      k := 0;
      while k < MAX_ROOMS && !(rooms[k].active && rooms[k].id == id)
        invariant k <= MAX_ROOMS
        invariant forall m :: 0 <= m < k ==> !HasId(id)(rooms[m])
      {
        k := k + 1;
      }
      FirstIs(rooms[..], HasId(id), k);
    }

    method HasClient(k: nat, c: int) returns (found: bool)
      requires Shaped() && k < MAX_ROOMS
      ensures found <==> c >= 0 && c in rooms[k].clientIds
    {
      if c < 0 {
        return false;
      }
      for i := 0 to MAX_MEMBERS
        invariant c !in rooms[k].clientIds[..i]
      {
        if rooms[k].clientIds[i] == c {
          return true;
        }
      }
      assert rooms[k].clientIds[..MAX_MEMBERS] == rooms[k].clientIds;
      found := false;
    }

    method AddClient(k: nat, c: int) returns (out: AddOutcome)
      requires Shaped() && k < MAX_ROOMS
      modifies rooms
      ensures Shaped()
      ensures out == Add(old(rooms[k]), c).1
      ensures rooms[..] == old(rooms[..])[k := Add(old(rooms[k]), c).0]
    {
      if c < 0 {
        return BadClient;
      }
      var present := HasClient(k, c);
      if present {
        return AlreadyMember;
      }
      if rooms[k].clientCount >= MAX_MEMBERS {
        return RoomFull;
      }
      for i := 0 to MAX_MEMBERS
        invariant rooms[..] == old(rooms[..])
        invariant forall m :: 0 <= m < i ==> !IsFree(rooms[k].clientIds[m])
      {
        if rooms[k].clientIds[i] == FREE {
          FirstIs(rooms[k].clientIds, IsFree, i);
          rooms[k] := rooms[k].(clientIds := rooms[k].clientIds[i := c], clientCount := rooms[k].clientCount + 1);
          return Added;
        }
      }
      FirstIs(rooms[k].clientIds, IsFree, MAX_MEMBERS);
      out := NoFreeSlot;
    }

    method RemoveClient(k: nat, c: int) returns (ok: bool)
      requires Shaped() && k < MAX_ROOMS
      modifies rooms
      ensures Shaped()
      ensures ok == Remove(old(rooms[k]), c).1
      ensures rooms[..] == old(rooms[..])[k := Remove(old(rooms[k]), c).0]
    {
      if c < 0 {
        return false;
      }
      for i := 0 to MAX_MEMBERS
        invariant rooms[..] == old(rooms[..])
        invariant forall m :: 0 <= m < i ==> !Is(c)(rooms[k].clientIds[m])
      {
        if rooms[k].clientIds[i] == c {
          FirstIs(rooms[k].clientIds, Is(c), i);
          rooms[k] := rooms[k].(clientIds := rooms[k].clientIds[i := FREE], clientCount := rooms[k].clientCount - 1);
          return true;
        }
      }
      FirstIs(rooms[k].clientIds, Is(c), MAX_MEMBERS);
      ok := false;
    }

    method CreateRoom(id: string, name: string, c: int) returns (out: CreateOutcome)
      requires Shaped()
      modifies this, rooms
      ensures Shaped()
      ensures (State(), out) == Create(old(State()), id, name, c)
    {
      if roomCount >= MAX_ROOMS {
        return TooManyRooms;
      }
      var k := 0;
      while k < MAX_ROOMS && rooms[k].active
        invariant 0 <= k <= MAX_ROOMS
        invariant forall m :: 0 <= m < k ==> !IsInactive(rooms[m])
      {
        k := k + 1;
      }
      FirstIs(rooms[..], IsInactive, k);
      if k == MAX_ROOMS {
        return NoFreeRoom;
      }
      rooms[k] := Opened(id, name);
      var added := AddClient(k, c);
      roomCount := roomCount + 1;
      assert rooms[..] == old(rooms[..])[k := Add(Opened(id, name), c).0];
      out := Created(k);
    }

    method JoinRoom(id: string, c: int) returns (out: JoinOutcome)
      requires Shaped()
      modifies rooms
      ensures Shaped()
      ensures (State(), out) == Join(old(State()), id, c)
    {
      var k := FindRoom(id);
      if k == MAX_ROOMS {
        return NoSuchRoom;
      }
      var added := AddClient(k, c);
      out := Tried(k, added);
    }

    method LeaveRoom(id: string, c: int) returns (out: LeaveOutcome)
      requires Shaped()
      modifies this, rooms
      ensures Shaped()
      ensures (State(), out) == Leave(old(State()), id, c)
    {
      var k := FindRoom(id);
      if k == MAX_ROOMS {
        return NotFound;
      }
      var ok := RemoveClient(k, c);
      if rooms[k].clientCount == 0 {
        rooms[k] := Vacant();
        roomCount := roomCount - 1;
        assert rooms[..] == old(rooms[..])[k := Vacant()];
        return if ok then Closed else NotMember;
      }
      out := if ok then Left else NotMember;
    }

    method BroadcastToRoom(id: string, sender: int, reachable: set<int>) returns (sent: seq<int>)
      requires Shaped()
      ensures sent == Broadcast(State(), id, sender, reachable)
    {
      sent := [];
      var k := FindRoom(id);
      if k == MAX_ROOMS {
        return;
      }
      ghost var ids := rooms[k].clientIds;
      for i := 0 to MAX_MEMBERS
        invariant sent == Recipients(ids[..i], sender, reachable)
      {
        assert ids[..i + 1][..i] == ids[..i];
        var c := rooms[k].clientIds[i];
        if c != FREE && c != sender && c in reachable {
          sent := sent + [c];
        }
      }
      assert ids[..MAX_MEMBERS] == ids;
    }

    method ListRooms(size: nat) returns (buffer: string)
      requires Shaped()
      ensures size == 0 ==> buffer == ""
      ensures size > 0 ==> buffer == ListText(State(), size) && |buffer| < size
    {
      if size == 0 {
        return "";
      }
      buffer := Truncated(HEADER, size - 1);
      if roomCount == 0 {
        buffer := Append(buffer, NONE, size);
      } else {
        var i := 0;
        while i < MAX_ROOMS && RoomLeft(|buffer|, size)
          invariant 0 <= i <= MAX_ROOMS
          invariant Fill(rooms[..], i, buffer, size) == Fill(rooms[..], 0, Truncated(HEADER, size - 1), size)
        {
          if rooms[i].active {
            buffer := Append(buffer, Truncated(Line(rooms[i]), LINE_BUFFER - 1), size);
          }
          i := i + 1;
        }
      }
      buffer := Append(buffer, FOOTER, size);
    }
  }
}

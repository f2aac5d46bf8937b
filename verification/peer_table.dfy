/** The client's table of peer keys: 64 slots filled front to back, entries disabled but never moved. */
module PeerTable {
  import opened Bytes
  import opened KeyExchange

  const MAX_PEERS := 64

  datatype Peer = Peer(publicKey: seq<byte>, userId: seq<byte>, nickname: seq<byte>, active: bool)

  type UserId = seq<byte>

  // ---------------------------------------------------------------- the used slots as a value

  function IndexOf(ps: seq<Peer>, id: UserId): (i: nat)
    ensures i <= |ps|
    ensures i < |ps| ==> ps[i].userId == id
    ensures forall m :: 0 <= m < i ==> ps[m].userId != id
  {
    if ps == [] || ps[0].userId == id then 0
    else
      var k := IndexOf(ps[1..], id);
      assert forall m :: 1 <= m < 1 + k ==> ps[m] == ps[1..][m - 1];
      1 + k
  }

  function PeerOf(p: KeyPacket): Peer {
    Peer(p.publicKey, p.userId, StrField(p.nickname, NICKNAME_SIZE), true)
  }

  function Insert(ps: seq<Peer>, p: KeyPacket): seq<Peer>
    requires Sized(p)
  {
    if |ps| >= MAX_PEERS || !Verified(p) then ps
    else
      var i := IndexOf(ps, p.userId);
      if i < |ps| then ps[i := PeerOf(p)] else ps + [PeerOf(p)]
  }

  function Disabled(peer: Peer): Peer {
    peer.(active := false, publicKey := seq(PUBLIC_KEY_SIZE, _ => 0))
  }

  function Erase(ps: seq<Peer>, id: UserId): seq<Peer> {
    var i := IndexOf(ps, id);
    if i < |ps| then ps[i := Disabled(ps[i])] else ps
  }

  /** The first active entry with this id. */
  function Lookup(ps: seq<Peer>, id: UserId): Option<Peer> {
    if ps == [] then None
    else if ps[0].active && ps[0].userId == id then Some(ps[0])
    else Lookup(ps[1..], id)
  }

  ghost predicate Distinct(ps: seq<Peer>) {
    forall i, j :: 0 <= i < j < |ps| ==> ps[i].userId != ps[j].userId
  }

  // ---------------------------------------------------------------- what the table is meant to be

  datatype Entry = Entry(publicKey: seq<byte>, nickname: seq<byte>)

  /** A map from user id to key, together with every id ever accepted. */
  datatype Book = Book(live: map<UserId, Entry>, accepted: set<UserId>)

  ghost function BookAdd(b: Book, p: KeyPacket): Book
    requires Sized(p)
  {
    if |b.accepted| >= MAX_PEERS || !Verified(p) then b
    else Book(b.live[p.userId := Entry(p.publicKey, StrField(p.nickname, NICKNAME_SIZE))], b.accepted + {p.userId})
  }

  ghost function BookRemove(b: Book, id: UserId): Book {
    Book(b.live - {id}, b.accepted)
  }

  ghost function Ids(ps: seq<Peer>): set<UserId> {
    set i | 0 <= i < |ps| :: ps[i].userId
  }

  ghost function ActiveIds(ps: seq<Peer>): set<UserId> {
    set i | 0 <= i < |ps| && ps[i].active :: ps[i].userId
  }

  ghost function EntryFor(ps: seq<Peer>, id: UserId): Entry {
    var i := IndexOf(ps, id);
    if i < |ps| then Entry(ps[i].publicKey, ps[i].nickname) else Entry([], [])
  }

  ghost function Abstraction(ps: seq<Peer>): Book {
    Book(map id | id in ActiveIds(ps) :: EntryFor(ps, id), Ids(ps))
  }

  lemma IndexOfMember(ps: seq<Peer>, m: nat)
    requires Distinct(ps) && m < |ps|
    ensures IndexOf(ps, ps[m].userId) == m
  {
  }

  lemma {:induction false} DistinctIdsCount(ps: seq<Peer>)
    requires Distinct(ps)
    ensures |Ids(ps)| == |ps|
  {
    if ps == [] {
    } else {
      var n := |ps| - 1;
      DistinctIdsCount(ps[..n]);
      assert Ids(ps) == Ids(ps[..n]) + {ps[n].userId};
      assert ps[n].userId !in Ids(ps[..n]);
    }
  }

  /** Two tables that agree on every id other than one agree on its entries. */
  lemma SameElsewhere(ps: seq<Peer>, qs: seq<Peer>, k: nat, id: UserId)
    requires Distinct(ps) && Distinct(qs) && k < |qs| && |ps| <= |qs| <= |ps| + 1
    requires forall m :: 0 <= m < |qs| && m != k ==> m < |ps| && qs[m] == ps[m]
    requires k < |ps| ==> ps[k].userId == qs[k].userId
    requires id != qs[k].userId
    ensures id in ActiveIds(qs) <==> id in ActiveIds(ps)
    ensures id in Ids(qs) <==> id in Ids(ps)
    ensures EntryFor(qs, id) == EntryFor(ps, id)
  {
    var i := IndexOf(ps, id);
    if i < |ps| {
      assert qs[i] == ps[i];
      IndexOfMember(qs, i);
    } else {
      assert IndexOf(qs, id) == |qs|;
    }
    if id in ActiveIds(ps) {
      var m :| 0 <= m < |ps| && ps[m].active && ps[m].userId == id;
      assert qs[m] == ps[m];
    }
  }

  lemma InsertShape(ps: seq<Peer>, p: KeyPacket)
    requires Distinct(ps) && |ps| < MAX_PEERS && Sized(p) && Verified(p)
    ensures var qs, k := Insert(ps, p), IndexOf(ps, p.userId);
            && Distinct(qs) && k < |qs| && |ps| <= |qs| <= |ps| + 1 && |qs| <= MAX_PEERS
            && qs[k] == PeerOf(p) && IndexOf(qs, p.userId) == k
            && (forall m :: 0 <= m < |qs| && m != k ==> m < |ps| && qs[m] == ps[m])
            && (k < |ps| ==> ps[k].userId == p.userId)
  {
    IndexOfMember(Insert(ps, p), IndexOf(ps, p.userId));
  }

  lemma InsertKeepsDistinct(ps: seq<Peer>, p: KeyPacket)
    requires Distinct(ps) && |ps| <= MAX_PEERS && Sized(p)
    ensures Distinct(Insert(ps, p)) && |ps| <= |Insert(ps, p)| <= MAX_PEERS
  {
    if |ps| < MAX_PEERS && Verified(p) {
      InsertShape(ps, p);
    }
  }

  /** As far as this id is concerned, qs is ps with e put under key. */
  ghost predicate PutAt(ps: seq<Peer>, qs: seq<Peer>, key: UserId, e: Entry, id: UserId) {
    && (id in ActiveIds(qs) <==> id in ActiveIds(ps) || id == key)
    && (id in Ids(qs) <==> id in Ids(ps) || id == key)
    && EntryFor(qs, id) == if id == key then e else EntryFor(ps, id)
  }

  lemma InsertPuts(ps: seq<Peer>, p: KeyPacket, id: UserId)
    requires Distinct(ps) && |ps| < MAX_PEERS && Sized(p) && Verified(p)
    ensures PutAt(ps, Insert(ps, p), p.userId, Entry(p.publicKey, StrField(p.nickname, NICKNAME_SIZE)), id)
  {
    InsertShape(ps, p);
    var qs, k := Insert(ps, p), IndexOf(ps, p.userId);
    if id == p.userId {
      assert qs[k].userId == id && qs[k].active;
    } else {
      SameElsewhere(ps, qs, k, id);
    }
  }

  lemma PutEverywhere(ps: seq<Peer>, qs: seq<Peer>, key: UserId, e: Entry)
    requires forall id :: PutAt(ps, qs, key, e, id)
    ensures Abstraction(qs) == Book(Abstraction(ps).live[key := e], Abstraction(ps).accepted + {key})
  {
    var got, want := Abstraction(qs), Book(Abstraction(ps).live[key := e], Abstraction(ps).accepted + {key});
    forall id
      ensures id in got.live <==> id in want.live
      ensures id in got.accepted <==> id in want.accepted
      ensures id in want.live ==> got.live[id] == want.live[id]
    {
      assert PutAt(ps, qs, key, e, id);
    }
    assert got.live == want.live;
    assert got.accepted == want.accepted;
  }

  lemma {:induction false} InsertRefines(ps: seq<Peer>, p: KeyPacket)
    requires Distinct(ps) && |ps| <= MAX_PEERS && Sized(p)
    ensures Distinct(Insert(ps, p)) && |ps| <= |Insert(ps, p)| <= MAX_PEERS
    ensures Abstraction(Insert(ps, p)) == BookAdd(Abstraction(ps), p)
  {
    DistinctIdsCount(ps);
    if |ps| < MAX_PEERS && Verified(p) {
      InsertShape(ps, p);
      var e := Entry(p.publicKey, StrField(p.nickname, NICKNAME_SIZE));
      forall id ensures PutAt(ps, Insert(ps, p), p.userId, e, id) {
        InsertPuts(ps, p, id);
      }
      PutEverywhere(ps, Insert(ps, p), p.userId, e);
    }
  }

  lemma ErasedElsewhere(ps: seq<Peer>, k: nat, gone: Peer, x: UserId)
    requires Distinct(ps) && k < |ps| && gone.userId == ps[k].userId && !gone.active
    ensures Distinct(ps[k := gone])
    ensures x in Abstraction(ps[k := gone]).live <==> x in Abstraction(ps).live && x != gone.userId
    ensures x in Ids(ps[k := gone]) <==> x in Ids(ps)
    ensures x in Abstraction(ps[k := gone]).live ==> Abstraction(ps[k := gone]).live[x] == Abstraction(ps).live[x]
  {
    var qs := ps[k := gone];
    if x != gone.userId {
      SameElsewhere(ps, qs, k, x);
    } else {
      assert qs[k].userId == x && ps[k].userId == x;
    }
  }

  lemma OneKeyLess<K, V>(m: map<K, V>, n: map<K, V>, id: K)
    requires forall x :: x in n <==> x in m && x != id
    requires forall x :: x in n ==> n[x] == m[x]
    ensures n == m - {id}
  {
  }

  lemma {:induction false} EraseRefines(ps: seq<Peer>, id: UserId)
    requires Distinct(ps)
    ensures Distinct(Erase(ps, id)) && |Erase(ps, id)| == |ps|
    ensures Abstraction(Erase(ps, id)) == BookRemove(Abstraction(ps), id)
  {
    var k, qs := IndexOf(ps, id), Erase(ps, id);
    var was, now := Abstraction(ps), Abstraction(qs);
    if k < |ps| {
      ErasedElsewhere(ps, k, Disabled(ps[k]), id);
      forall x
        ensures x in now.live <==> x in was.live && x != id
        ensures x in now.live ==> now.live[x] == was.live[x]
        ensures x in now.accepted <==> x in was.accepted
      {
        ErasedElsewhere(ps, k, Disabled(ps[k]), x);
      }
      assert now.accepted == was.accepted;
    }
    OneKeyLess(was.live, now.live, id);
  }

  lemma {:induction false} LookupIsFirstActive(ps: seq<Peer>, id: UserId)
    requires Distinct(ps)
    ensures Lookup(ps, id) ==
            var i := IndexOf(ps, id);
            if i < |ps| && ps[i].active then Some(ps[i]) else None
    decreases |ps|
  {
    if ps == [] {
    } else if ps[0].userId == id {
      var rest := ps[1..];
      LookupIsFirstActive(rest, id);
      assert forall m :: 0 <= m < |rest| ==> rest[m] == ps[m + 1];
    } else {
      LookupIsFirstActive(ps[1..], id);
    }
  }

  lemma {:induction false} LookupIsMapLookup(ps: seq<Peer>, id: UserId)
    requires Distinct(ps)
    ensures Lookup(ps, id).Some? <==> id in Abstraction(ps).live
    ensures Lookup(ps, id).Some? ==>
              var q := Lookup(ps, id).value;
              q.userId == id && q.active && Entry(q.publicKey, q.nickname) == Abstraction(ps).live[id]
  {
    LookupIsFirstActive(ps, id);
    if id in ActiveIds(ps) {
      var m :| 0 <= m < |ps| && ps[m].active && ps[m].userId == id;
      IndexOfMember(ps, m);
    }
  }

  // ---------------------------------------------------------------- every run of the table

  datatype Op = Add(packet: KeyPacket) | Remove(id: UserId)

  ghost predicate SizedOps(ops: seq<Op>) {
    forall i :: 0 <= i < |ops| && ops[i].Add? ==> Sized(ops[i].packet)
  }

  ghost function RunTable(ops: seq<Op>): seq<Peer>
    requires SizedOps(ops)
  {
    if ops == [] then []
    else
      var n := |ops| - 1;
      match ops[n]
      case Add(p) => Insert(RunTable(ops[..n]), p)
      case Remove(id) => Erase(RunTable(ops[..n]), id)
  }

  ghost function BookStep(b: Book, op: Op): Book
    requires op.Add? ==> Sized(op.packet)
  {
    match op
    case Add(p) => BookAdd(b, p)
    case Remove(id) => BookRemove(b, id)
  }

  ghost function RunBook(ops: seq<Op>): Book
    requires SizedOps(ops)
  {
    if ops == [] then Book(map[], {}) else BookStep(RunBook(ops[..|ops| - 1]), ops[|ops| - 1])
  }

  /**
   Over every sequence of adds, updates and removes the table is the map: the used ids are distinct,
   the count of used slots is the number of distinct ids ever accepted, and no run exceeds 64.
   */
  lemma {:induction false} EveryRunRefinesTheMap(ops: seq<Op>)
    requires SizedOps(ops)
    ensures Distinct(RunTable(ops)) && Abstraction(RunTable(ops)) == RunBook(ops)
    ensures |RunTable(ops)| == |RunBook(ops).accepted| <= MAX_PEERS
    decreases |ops|
  {
    if ops == [] {
      assert Abstraction([]).live == map[];
    } else {
      var n := |ops| - 1;
      EveryRunRefinesTheMap(ops[..n]);
      match ops[n]
      case Add(p) => InsertRefines(RunTable(ops[..n]), p);
      case Remove(id) => EraseRefines(RunTable(ops[..n]), id);
    }
    DistinctIdsCount(RunTable(ops));
  }

  /** num_peers never decreases along a run, and lookups answer from the map. */
  lemma {:induction false} RunsOnlyGrow(ops: seq<Op>, more: seq<Op>, id: UserId)
    requires SizedOps(ops + more)
    ensures SizedOps(ops)
    ensures |RunTable(ops)| <= |RunTable(ops + more)|
    ensures Lookup(RunTable(ops), id).Some? <==> id in RunBook(ops).live
    decreases |more|
  {
    var all := ops + more;
    assert forall i :: 0 <= i < |ops| ==> all[i] == ops[i];
    EveryRunRefinesTheMap(ops);
    LookupIsMapLookup(RunTable(ops), id);
    if more == [] {
      assert all == ops;
    } else {
      var n := |more| - 1;
      assert all[|all| - 1] == more[n];
      assert all[..|all| - 1] == ops + more[..n];
      RunsOnlyGrow(ops, more[..n], id);
      EveryRunRefinesTheMap(ops + more[..n]);
      match more[n]
      case Add(p) => InsertRefines(RunTable(ops + more[..n]), p);
      case Remove(x) => EraseRefines(RunTable(ops + more[..n]), x);
    }
  }

  /** The ids some operation removes. */
  ghost function Removed(ops: seq<Op>): set<UserId> {
    if ops == [] then {}
    else
      var n := |ops| - 1;
      Removed(ops[..n]) + (if ops[n].Remove? then {ops[n].id} else {})
  }

  lemma LastOp(all: seq<Op>, before: seq<Op>, op: Op)
    requires SizedOps(all) && all == before + [op]
    ensures SizedOps(before) && (op.Add? ==> Sized(op.packet)) && RunBook(all) == BookStep(RunBook(before), op)
  {
    var n := |before|;
    assert all[n] == op && all[..n] == before;
    assert forall i :: 0 <= i < n ==> before[i] == all[i];
  }

  lemma RemovedStep(ops: seq<Op>, live: map<UserId, Entry>)
    requires ops != []
    ensures var n := |ops| - 1;
            && (ops[n].Add? ==> live - Removed(ops) == live - Removed(ops[..n]))
            && (ops[n].Remove? ==> live - Removed(ops) == live - Removed(ops[..n]) - {ops[n].id})
  {
  }

  lemma {:induction false} FullBookOnlyShrinks(ops: seq<Op>, more: seq<Op>)
    requires SizedOps(ops) && SizedOps(ops + more) && |RunBook(ops).accepted| >= MAX_PEERS
    ensures RunBook(ops + more) == Book(RunBook(ops).live - Removed(more), RunBook(ops).accepted)
    decreases |more|
  {
    if more == [] {
      assert ops + more == ops && RunBook(ops).live - {} == RunBook(ops).live;
    } else {
      var n := |more| - 1;
      assert ops + more == (ops + more[..n]) + [more[n]];
      LastOp(ops + more, ops + more[..n], more[n]);
      FullBookOnlyShrinks(ops, more[..n]);
      RemovedStep(more, RunBook(ops).live);
    }
  }

  /**
   Once 64 ids were accepted nothing is added or updated any more, known peers included: every
   continuation leaves the accepted ids alone and loses exactly the entries it removes.
   */
  lemma {:induction false} FullTableOnlyShrinks(ops: seq<Op>, more: seq<Op>)
    requires SizedOps(ops) && SizedOps(ops + more) && |RunTable(ops)| == MAX_PEERS
    ensures |RunTable(ops + more)| == MAX_PEERS
    ensures Abstraction(RunTable(ops + more))
         == Book(Abstraction(RunTable(ops)).live - Removed(more), Abstraction(RunTable(ops)).accepted)
  {
    EveryRunRefinesTheMap(ops);
    EveryRunRefinesTheMap(ops + more);
    FullBookOnlyShrinks(ops, more);
  }

  // ---------------------------------------------------------------- the table in place

  class Table {
    const peers: array<Peer>
    var numPeers: nat

    ghost predicate Valid()
      reads this, peers
    {
      peers.Length == MAX_PEERS && numPeers <= MAX_PEERS && Distinct(Used())
    }

    ghost function Used(): seq<Peer>
      reads this, peers
      requires numPeers <= peers.Length
    {
      peers[..numPeers]
    }

    constructor ()
      ensures Valid() && fresh(peers) && Used() == []
    {
      peers := new Peer[MAX_PEERS](_ => Peer([], [], [], false));
      numPeers := 0;
    }

    method AddPeer(p: KeyPacket) returns (ok: bool)
      requires Valid() && Sized(p)
      modifies this, peers
      ensures Valid()
      ensures ok <==> |old(Used())| < MAX_PEERS && Verified(p)
      ensures Used() == Insert(old(Used()), p)
    {
      InsertKeepsDistinct(Used(), p);
      if numPeers >= MAX_PEERS {
        return false;
      }
      var verified := VerifyPacket(p);
      if !verified {
        return false;
      }
      var i := FindSlot(p.userId);
      if i < numPeers {
        var nickname := StrField(p.nickname, NICKNAME_SIZE);
        peers[i] := peers[i].(publicKey := p.publicKey, nickname := nickname, active := true);
        assert Used() == old(Used())[i := PeerOf(p)];
        return true;
      }
      peers[numPeers] := PeerOf(p);
      numPeers := numPeers + 1;
      assert Used() == old(Used()) + [PeerOf(p)];
      ok := true;
    }

    method FindSlot(id: UserId) returns (i: nat)
      requires Valid()
      ensures i == IndexOf(Used(), id)
    {
      i := 0;
      while i < numPeers
        invariant i <= numPeers
        invariant forall m :: 0 <= m < i ==> peers[m].userId != id
      {
        if peers[i].userId == id {
          return;
        }
        i := i + 1;
      }
    }

    method RemovePeer(id: UserId) returns (ok: bool)
      requires Valid()
      modifies peers
      ensures Valid()
      ensures ok <==> exists m :: 0 <= m < |old(Used())| && old(Used())[m].userId == id
      ensures Used() == Erase(old(Used()), id)
    {
      EraseRefines(Used(), id);
      var i := FindSlot(id);
      if i == numPeers {
        return false;
      }
      peers[i] := Disabled(peers[i]);
      assert Used() == old(Used())[i := Disabled(old(Used())[i])];
      ok := true;
    }

    method FindPeer(id: UserId) returns (r: Option<Peer>)
      requires Valid()
      ensures r == Lookup(Used(), id)
    {
      var i := 0;
      while i < numPeers
        invariant 0 <= i <= numPeers
        invariant Lookup(Used(), id) == Lookup(peers[i..numPeers], id)
      {
        ghost var rest := peers[i..numPeers];
        assert rest[1..] == peers[i + 1..numPeers];
        if peers[i].active && peers[i].userId == id {
          return Some(peers[i]);
        }
        i := i + 1;
      }
      r := None;
    }
  }
}

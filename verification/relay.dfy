/** A key-exchange line on the running server: which clients are sent it, and what they then know. */
module Relay {
  import opened Bytes
  import opened KeyExchange
  import opened PeerTable
  import opened E2E
  import opened LinkCipher
  import Wire
  import RR = RoomResults
  import CS = ClientSlots
  import Chat = ChatServer
  import Membership

  /** The room of the sending session if it names one, else every client; sendable are the sends that succeed. */
  function Recipients(s: Chat.State, t: nat, sendable: set<int>): seq<int>
    requires Chat.Shaped(s) && t < |s.threads|
  {
    if Chat.Named(Chat.SessionOf(s, t)) then Chat.Delivered(s, t, sendable)
    else CS.Reached(s.slots, CS.MAX_CLIENTS, s.threads[t].slot, Failing(sendable))
  }

  function Failing(sendable: set<int>): set<nat> {
    set c: nat | c < CS.MAX_CLIENTS && c !in sendable
  }

  /**
   Exactly the reachable active clients other than the sender, and from inside a room only those listed
   there: as far as they are consistent, only clients naming that room or just entering it.
   */
  lemma {:induction false} RecipientsExactly(s: Chat.State, t: nat, sendable: set<int>, m: int)
    requires Chat.Inv(s) && t < |s.threads| && s.threads[t].pc.Idle?
    ensures m in Recipients(s, t, sendable) <==>
            && 0 <= m < CS.MAX_CLIENTS && s.slots.sessions[m].active && m != s.threads[t].slot && m in sendable
            && (Chat.Named(Chat.SessionOf(s, t)) ==> RR.ListedIn(s.table, Chat.SessionOf(s, t).roomId, m))
    ensures m in Recipients(s, t, sendable) && Chat.Named(Chat.SessionOf(s, t))
            && Membership.DistinctIds(s.table) && Membership.Consistent(s, m) ==>
              var id := Chat.SessionOf(s, t).roomId;
              Chat.Names(s.slots.sessions[m], id) || Membership.JustEntering(s, m, id)
  {
    var x, slot := Chat.SessionOf(s, t), s.threads[t].slot;
    if Chat.Named(x) {
      var live := set c | c in sendable && 0 <= c < CS.MAX_CLIENTS && s.slots.sessions[c].active;
      RR.BroadcastExactly(s.table, x.roomId, slot, live);
      if Membership.DistinctIds(s.table) && m in Recipients(s, t, sendable) {
        Membership.BroadcastStaysInRoom(s, t, sendable, m);
      }
    } else {
      CS.ReachedAre(s.slots, CS.MAX_CLIENTS, slot, Failing(sendable), m);
    }
  }

  /** What client m receives when thread t's client sends this frame. */
  function Inbox(s: Chat.State, t: nat, sendable: set<int>, key: seq<byte>, frame: seq<byte>, m: int): Option<seq<byte>>
    requires Chat.Shaped(s) && t < |s.threads| && |key| == KEY_SIZE
  {
    if m in Recipients(s, t, sendable) then Wire.Relayed(key, frame) else None
  }

  /**
   The sender's key line arrives at exactly the recipients above, and only over a link in phase; each
   of them that has room and another id then looks up exactly the sender's key.
   */
  lemma {:induction false} KeyReachesExactly(
    s: Chat.State, t: nat, sendable: set<int>, m: int, k: KeyPair, key: seq<byte>, n: nat,
    me: UserId, ps: seq<Peer>, irregular: seq<byte> -> Option<byte>)
    requires Chat.Inv(s) && t < |s.threads| && s.threads[t].pc.Idle? && Honest(k) && |key| == KEY_SIZE
    ensures var got := Inbox(s, t, sendable, key, KthFrame(key, n, Wire.KeyLine(k)), m);
            && (got == Some(Wire.KeyLine(k)) <==>
                && InPhase(n)
                && 0 <= m < CS.MAX_CLIENTS && s.slots.sessions[m].active && m != s.threads[t].slot && m in sendable
                && (Chat.Named(Chat.SessionOf(s, t)) ==> RR.ListedIn(s.table, Chat.SessionOf(s, t).roomId, m)))
            && (got == Some(Wire.KeyLine(k)) && Distinct(ps) && |ps| < MAX_PEERS && k.userId != me ==>
                Lookup(Wire.Received(me, ps, got.value, irregular), k.userId)
                == Some(Peer(k.publicKey, k.userId, StrField(k.nickname, NICKNAME_SIZE), true)))
  {
    RecipientsExactly(s, t, sendable, m);
    Wire.RelayedExactlyInPhase(k, key, n);
    if InPhase(n) && Distinct(ps) && |ps| < MAX_PEERS && k.userId != me {
      Wire.KeyReachesReceiver(k, key, n, me, ps, irregular);
    }
  }
}

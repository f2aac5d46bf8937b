/** The bytes of keys, secrets and packets, one by one, and what a wrong secret reads. */
module E2EBytes {
  import opened Bytes
  import opened KeyExchange
  import opened PeerTable
  import opened E2E

  lemma MixedByte(x: seq<byte>, y: seq<byte>, step: nat, start: nat, i: nat)
    requires Block32(x) && Block32(y) && i < SECRET_SIZE
    ensures Mix(x, y, Salt(step, start))[i] == x[i] ^ y[i] ^ ByteOf(i * step + start)
  {
    assert Salt(step, start)[i] == ByteOf(i * step + start);
  }

  /** Byte i of a public key: the private key's byte i, then its byte i + 16 or the id's byte i - 16, and a constant. */
  lemma {:induction false} PublicKeyByte(k: KeyPair, i: nat)
    requires Honest(k) && i < PUBLIC_KEY_SIZE
    ensures k.publicKey[i]
         == k.privateKey[i] ^ (if i < 16 then k.privateKey[i + 16] else k.userId[i - 16]) ^ ByteOf(i * 17 + 42)
  {
    MixedByte(k.privateKey, Upper(k.privateKey, k.userId), 17, 42, i);
    assert Upper(k.privateKey, k.userId)[i] == (k.privateKey + k.userId)[i + 16];
  }

  lemma {:induction false} SecretByte(mine: seq<byte>, theirs: seq<byte>, i: nat)
    requires Block32(mine) && |theirs| == PUBLIC_KEY_SIZE && i < SECRET_SIZE
    ensures Secret(mine, theirs)[i] == mine[i] ^ theirs[i] ^ ByteOf(i * 31 + 73)
  {
    MixedByte(mine, theirs, 31, 73, i);
  }

  lemma {:induction false} MacByte(sender: seq<byte>, recipient: seq<byte>, secret: seq<byte>, i: nat)
    requires |sender| == ID_SIZE && |recipient| == ID_SIZE && Block32(secret) && i < SIGNATURE_SIZE
    ensures Mac(sender, recipient, secret)[i]
         == (if i < 16 then sender[i] else recipient[i - 16]) ^ secret[i] ^ ByteOf(i * 13)
  {
    MixedByte(sender + recipient, secret, 13, 0, i);
  }

  // ---------------------------------------------------------------- the packet of a message

  lemma Unmasked(a: byte, k: byte, n: byte)
    ensures a ^ (a ^ k ^ n) == k ^ n
  {
  }

  lemma CipherByte(secret: seq<byte>, data: seq<byte>, i: nat)
    requires Block32(secret) && i < |data|
    ensures data[i] ^ Cipher(secret, data)[i] == secret[i % SECRET_SIZE] ^ ByteOf(i)
  {
    Unmasked(data[i], secret[i % SECRET_SIZE], ByteOf(i));
  }

  /** A message is refused exactly for an unknown recipient or a text of 992 bytes or more. */
  lemma {:induction false} RefusedExactly(
    me: KeyPair, ps: seq<Peer>, text: seq<byte>, recipient: UserId, pad: seq<byte>)
    requires Party(me, ps) && |recipient| == ID_SIZE
    ensures Encrypted(me, ps, text, recipient, pad) == None <==>
            |text| >= 992 || !(exists m :: 0 <= m < |ps| && ps[m].active && ps[m].userId == recipient)
  {
    KnownExactly(ps, recipient);
  }

  lemma {:induction false} KnownExactly(ps: seq<Peer>, id: UserId)
    ensures Lookup(ps, id).Some? <==> exists m :: 0 <= m < |ps| && ps[m].active && ps[m].userId == id
    ensures Lookup(ps, id).Some? ==> Lookup(ps, id).value in ps
  {
    if ps != [] {
      KnownExactly(ps[1..], id);
      if ps[0].active && ps[0].userId == id {
        assert ps[0] in ps;
      } else {
        forall m | 0 <= m < |ps| && ps[m].active && ps[m].userId == id
          ensures exists n :: 0 <= n < |ps[1..]| && ps[1..][n].active && ps[1..][n].userId == id
        {
          assert ps[1..][m - 1] == ps[m];
        }
        if n :| 0 <= n < |ps[1..]| && ps[1..][n].active && ps[1..][n].userId == id {
          assert ps[n + 1] == ps[1..][n];
        }
      }
    }
  }

  /** The secret shared with a peer, from the peer's entry in the table. */
  lemma {:induction false} PeerSecretByte(me: KeyPair, ps: seq<Peer>, id: UserId, peer: Peer, i: nat)
    requires Party(me, ps) && Lookup(ps, id) == Some(peer) && |peer.publicKey| == PUBLIC_KEY_SIZE && i < SECRET_SIZE
    ensures PeerSecret(me, ps, id)[i] == me.privateKey[i] ^ peer.publicKey[i] ^ ByteOf(i * 31 + 73)
  {
    SecretByte(me.privateKey, peer.publicKey, i);
  }

  /** A sent packet names its sender and recipient, and its MAC covers both and the secret. */
  lemma {:induction false} PacketMac(
    me: KeyPair, ps: seq<Peer>, text: seq<byte>, recipient: UserId, pad: seq<byte>, i: nat)
    requires Party(me, ps) && |recipient| == ID_SIZE && Encrypted(me, ps, text, recipient, pad).Some?
    requires i < SIGNATURE_SIZE
    ensures var p := Encrypted(me, ps, text, recipient, pad).value;
            && p.sender == me.userId && p.recipient == recipient && |p.signature| == SIGNATURE_SIZE
            && p.signature[i] == (if i < 16 then me.userId[i] else recipient[i - 16])
                                 ^ PeerSecret(me, ps, recipient)[i] ^ ByteOf(i * 13)
  {
    MacByte(me.userId, recipient, PeerSecret(me, ps, recipient), i);
  }

  /** Its data differs from text and padding by the secret, repeated every 32 bytes, and the byte's index. */
  lemma {:induction false} PacketData(
    me: KeyPair, ps: seq<Peer>, text: seq<byte>, recipient: UserId, pad: seq<byte>, i: nat)
    requires Party(me, ps) && |recipient| == ID_SIZE && Encrypted(me, ps, text, recipient, pad).Some?
    requires i < |text + pad|
    ensures var p := Encrypted(me, ps, text, recipient, pad).value;
            && |p.data| == |text + pad|
            && (text + pad)[i] ^ p.data[i] == PeerSecret(me, ps, recipient)[i % SECRET_SIZE] ^ ByteOf(i)
  {
    CipherByte(PeerSecret(me, ps, recipient), text + pad, i);
  }

  // ---------------------------------------------------------------- the wrong secret

  lemma SameSecretByte(a: byte, k: byte, n: byte)
    ensures ((a ^ k ^ n) ^ k) ^ n == a
  {
  }

  lemma OtherSecretByte(a: byte, k: byte, l: byte, n: byte)
    requires k != l
    ensures ((a ^ k ^ n) ^ l) ^ n != a
  {
  }

  /** Deciphering with another secret reads exactly those bytes right at which the secrets agree. */
  lemma {:induction false} WrongSecretReads(k: seq<byte>, l: seq<byte>, data: seq<byte>, i: nat)
    requires Block32(k) && Block32(l) && i < |data|
    ensures Cipher(l, Cipher(k, data))[i] == data[i] <==> k[i % SECRET_SIZE] == l[i % SECRET_SIZE]
  {
    if k[i % SECRET_SIZE] == l[i % SECRET_SIZE] {
      SameSecretByte(data[i], k[i % SECRET_SIZE], ByteOf(i));
    } else {
      OtherSecretByte(data[i], k[i % SECRET_SIZE], l[i % SECRET_SIZE], ByteOf(i));
    }
  }

  // ---------------------------------------------------------------- what is shown when no padding byte is NUL

  lemma NoNulTail(s: seq<byte>, lo: nat)
    requires forall m :: lo <= m < |s| ==> s[m] != 0
    ensures LastNul(s, lo) == lo - 1
  {
  }

  /** Without a NUL to stop at: everything up to 17 bytes, beyond that all but the last 16. */
  lemma {:induction false} UnstoppedUnpadding(plain: seq<byte>)
    requires |plain| >= 1
    requires forall m :: 1 <= m < |plain| && |plain| - BLOCK <= m ==> plain[m] != 0
    ensures UnpadLength(plain) == if |plain| <= BLOCK + 1 then |plain| else |plain| - BLOCK
    ensures 0 !in plain ==> Displayed(plain) == plain[..UnpadLength(plain)]
  {
    NoNulTail(plain, if |plain| > BLOCK then |plain| - BLOCK else 1);
    UnpadLengthInRange(plain);
    if 0 !in plain {
      var kept := plain[..UnpadLength(plain)];
      StrLenIsFirstNul(kept, |kept|);
      assert kept[..|kept|] == kept;
    }
  }

  /** Below 16 bytes nothing is removed, NULs or not. */
  lemma {:induction false} ShortUnpadding(plain: seq<byte>)
    requires 1 <= |plain| < BLOCK
    ensures UnpadLength(plain) == |plain|
  {
  }

  /** One past the last NUL among the final 16 bytes, index 0 never looked at, when there is one. */
  lemma {:induction false} StoppedUnpadding(plain: seq<byte>, k: nat)
    requires BLOCK <= |plain| && 1 <= k < |plain| && |plain| - BLOCK <= k && plain[k] == 0
    requires forall m :: k < m < |plain| ==> plain[m] != 0
    ensures UnpadLength(plain) == k + 1
  {
    LastNulUnique(plain, if |plain| > BLOCK then |plain| - BLOCK else 1, k);
  }

  // ---------------------------------------------------------------- key packets and the table

  /** Byte i of a key packet's signature, in terms of its fields. */
  lemma {:induction false} PacketSignatureByte(p: KeyPacket, i: nat)
    requires Sized(p) && i < SIGNATURE_SIZE
    ensures Signature(SignedPart(p))[i]
         == if i < 16 then p.userId[i] ^ p.publicKey[i + 16] ^ p.nickname[i + 16] ^ ByteOf(i * 19)
            else p.publicKey[i - 16] ^ p.nickname[i - 16] ^ p.nickname[i + 16] ^ ByteOf(i * 19)
  {
    var s := SignedPart(p);
    assert s == p.userId + p.publicKey + p.nickname;
    SignatureAt(s, i);
  }

  /** Removing disables the entry in place and wipes its key; nothing else in the table changes. */
  lemma {:induction false} EraseWipesKey(ps: seq<Peer>, m: nat, id: UserId)
    requires Distinct(ps) && m < |ps|
    ensures |Erase(ps, id)| == |ps|
    ensures Erase(ps, id)[m].userId == ps[m].userId && Erase(ps, id)[m].nickname == ps[m].nickname
    ensures ps[m].userId != id ==> Erase(ps, id)[m] == ps[m]
    ensures ps[m].userId == id ==>
              !Erase(ps, id)[m].active && Erase(ps, id)[m].publicKey == seq(PUBLIC_KEY_SIZE, _ => 0)
  {
    if ps[m].userId == id {
      IndexOfMember(ps, m);
    }
  }

  /** A verified packet with a new id takes the next slot; one with a known id overwrites that slot. */
  lemma {:induction false} InsertExactly(ps: seq<Peer>, p: KeyPacket, m: nat)
    requires Distinct(ps) && |ps| < MAX_PEERS && Sized(p) && Verified(p)
    requires m <= |ps| && (m < |ps| ==> ps[m].userId == p.userId)
    requires m == |ps| ==> forall j :: 0 <= j < |ps| ==> ps[j].userId != p.userId
    ensures var e := Peer(p.publicKey, p.userId, StrField(p.nickname, NICKNAME_SIZE), true);
            Insert(ps, p) == if m < |ps| then ps[m := e] else ps + [e]
  {
    if m < |ps| {
      IndexOfMember(ps, m);
    }
  }
}

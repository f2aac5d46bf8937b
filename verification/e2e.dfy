/** End-to-end messages: key derivation, shared secrets, the MAC, padding and unpadding. */
module E2E {
  import opened Bytes
  import opened KeyExchange
  import opened PeerTable

  const SECRET_SIZE := 32
  const BLOCK := 16
  const MAX_MESSAGE := 1024

  datatype KeyPair = KeyPair(userId: seq<byte>, privateKey: seq<byte>, publicKey: seq<byte>, nickname: seq<byte>)

  // ---------------------------------------------------------------- keys and secrets

  /** The index-dependent constants mixed into derived bytes: (uint8_t)(i * step + start). */
  function Salt(step: nat, start: nat): (r: seq<byte>)
    ensures |r| == SECRET_SIZE
  {
    seq(SECRET_SIZE, i requires 0 <= i < SECRET_SIZE => ByteOf(i * step + start))
  }

  predicate Block32(s: seq<byte>) {
    |s| == SECRET_SIZE
  }

  /** The one mixing step behind public keys, shared secrets and the MAC. */
  function Mix(x: seq<byte>, y: seq<byte>, salt: seq<byte>): (r: seq<byte>)
    requires Block32(x) && Block32(y) && Block32(salt)
    ensures Block32(r)
  {
    seq(SECRET_SIZE, i requires 0 <= i < SECRET_SIZE => x[i] ^ y[i] ^ salt[i])
  }

  /** The bytes mixed into the private key: its own upper half, then the user id. */
  function Upper(privateKey: seq<byte>, userId: seq<byte>): (r: seq<byte>)
    requires Block32(privateKey) && |userId| == ID_SIZE
    ensures Block32(r)
  {
    (privateKey + userId)[16..]
  }

  function PublicKey(privateKey: seq<byte>, userId: seq<byte>): (r: seq<byte>)
    requires Block32(privateKey) && |userId| == ID_SIZE
    ensures |r| == PUBLIC_KEY_SIZE
  {
    Mix(privateKey, Upper(privateKey, userId), Salt(17, 42))
  }

  predicate Honest(k: KeyPair) {
    && |k.userId| == ID_SIZE
    && |k.privateKey| == SECRET_SIZE
    && k.publicKey == PublicKey(k.privateKey, k.userId)
  }

  function Secret(mine: seq<byte>, theirs: seq<byte>): (r: seq<byte>)
    requires Block32(mine) && |theirs| == PUBLIC_KEY_SIZE
    ensures |r| == SECRET_SIZE
  {
    Mix(mine, theirs, Salt(31, 73))
  }

  function Mac(sender: seq<byte>, recipient: seq<byte>, secret: seq<byte>): (r: seq<byte>)
    requires |sender| == ID_SIZE && |recipient| == ID_SIZE && Block32(secret)
    ensures |r| == SIGNATURE_SIZE
  {
    Mix(sender + recipient, secret, Salt(13, 0))
  }

  lemma CrossedSame(a: byte, b: byte, x: byte, c: byte, d: byte)
    ensures a ^ (b ^ x ^ c) ^ d == b ^ (a ^ x ^ c) ^ d
  {
  }

  lemma CrossedDiffer(a: byte, b: byte, x: byte, y: byte, c: byte, d: byte)
    requires x != y
    ensures a ^ (b ^ y ^ c) ^ d != b ^ (a ^ x ^ c) ^ d
  {
  }

  lemma MixedTwiceAt(a: seq<byte>, b: seq<byte>, y: seq<byte>, c: seq<byte>, d: seq<byte>, i: nat)
    requires Block32(a) && Block32(b) && Block32(y) && Block32(c) && Block32(d) && i < SECRET_SIZE
    ensures Mix(a, Mix(b, y, c), d)[i] == a[i] ^ (b[i] ^ y[i] ^ c[i]) ^ d[i]
  {
    var inner := Mix(b, y, c);
    assert inner[i] == b[i] ^ y[i] ^ c[i];
    assert Mix(a, inner, d)[i] == a[i] ^ inner[i] ^ d[i];
  }

  /** Sequences that agree wherever two others agree. */
  lemma AgreePointwise(s: seq<byte>, t: seq<byte>, x: seq<byte>, y: seq<byte>)
    requires |s| == |t| == |x| == |y|
    requires forall i :: 0 <= i < |s| ==> (s[i] == t[i] <==> x[i] == y[i])
    ensures s == t <==> x == y
  {
  }

  lemma CrossedMixesSame(a: seq<byte>, b: seq<byte>, x: seq<byte>, c: seq<byte>, d: seq<byte>)
    requires Block32(a) && Block32(b) && Block32(x) && Block32(c) && Block32(d)
    ensures Mix(a, Mix(b, x, c), d) == Mix(b, Mix(a, x, c), d)
  {
    forall i | 0 <= i < SECRET_SIZE ensures Mix(a, Mix(b, x, c), d)[i] == Mix(b, Mix(a, x, c), d)[i] {
      MixedTwiceAt(a, b, x, c, d, i);
      MixedTwiceAt(b, a, x, c, d, i);
      CrossedSame(a[i], b[i], x[i], c[i], d[i]);
    }
  }

  lemma CrossedMixesDiffer(a: seq<byte>, b: seq<byte>, x: seq<byte>, y: seq<byte>, c: seq<byte>, d: seq<byte>, i: nat)
    requires Block32(a) && Block32(b) && Block32(x) && Block32(y) && Block32(c) && Block32(d)
    requires i < SECRET_SIZE && x[i] != y[i]
    ensures Mix(a, Mix(b, y, c), d)[i] != Mix(b, Mix(a, x, c), d)[i]
  {
    MixedTwiceAt(a, b, y, c, d, i);
    MixedTwiceAt(b, a, x, c, d, i);
    CrossedDiffer(a[i], b[i], x[i], y[i], c[i], d[i]);
  }

  lemma CrossedMixesAgree(a: seq<byte>, b: seq<byte>, x: seq<byte>, y: seq<byte>, c: seq<byte>, d: seq<byte>)
    requires Block32(a) && Block32(b) && Block32(x) && Block32(y) && Block32(c) && Block32(d)
    ensures Mix(a, Mix(b, y, c), d) == Mix(b, Mix(a, x, c), d) <==> x == y
  {
    if x == y {
      CrossedMixesSame(a, b, x, c, d);
    } else {
      var i :| 0 <= i < SECRET_SIZE && x[i] != y[i];
      CrossedMixesDiffer(a, b, x, y, c, d, i);
    }
  }

  lemma CancelsAt(x: seq<byte>, y: seq<byte>, z: seq<byte>, salt: seq<byte>, i: nat)
    requires Block32(x) && Block32(y) && Block32(z) && Block32(salt) && i < SECRET_SIZE
    ensures Mix(x, y, salt)[i] == Mix(x, z, salt)[i] <==> y[i] == z[i]
  {
    if y[i] != z[i] {
      XorCancels(x[i], y[i], z[i], salt[i]);
    }
  }

  lemma MixCancels(x: seq<byte>, y: seq<byte>, z: seq<byte>, salt: seq<byte>)
    requires Block32(x) && Block32(y) && Block32(z) && Block32(salt)
    ensures Mix(x, y, salt) == Mix(x, z, salt) <==> y == z
  {
    forall i | 0 <= i < SECRET_SIZE ensures Mix(x, y, salt)[i] == Mix(x, z, salt)[i] <==> y[i] == z[i] {
      CancelsAt(x, y, z, salt, i);
    }
    AgreePointwise(Mix(x, y, salt), Mix(x, z, salt), y, z);
  }

  lemma XorCancels(a: byte, x: byte, y: byte, c: byte)
    ensures a ^ x ^ c == a ^ y ^ c <==> x == y
  {
  }

  lemma UpperAgrees(p: seq<byte>, u: seq<byte>, q: seq<byte>, v: seq<byte>)
    requires Block32(p) && Block32(q) && |u| == |v| == ID_SIZE
    ensures Upper(p, u) == Upper(q, v) <==> u == v && p[16..] == q[16..]
  {
    assert Upper(p, u) == p[16..] + u && Upper(q, v) == q[16..] + v;
    assert (p[16..] + u)[..16] == p[16..] && (p[16..] + u)[16..] == u;
    assert (q[16..] + v)[..16] == q[16..] && (q[16..] + v)[16..] == v;
  }

  /** The two directions of key derivation agree only for one user id and one upper half of the private key. */
  lemma {:induction false} SecretsAgreeExactly(a: KeyPair, b: KeyPair)
    requires Honest(a) && Honest(b)
    ensures Secret(a.privateKey, b.publicKey) == Secret(b.privateKey, a.publicKey)
       <==> a.userId == b.userId && a.privateKey[16..] == b.privateKey[16..]
  {
    var x, y := Upper(a.privateKey, a.userId), Upper(b.privateKey, b.userId);
    CrossedMixesAgree(a.privateKey, b.privateKey, x, y, Salt(17, 42), Salt(31, 73));
    UpperAgrees(a.privateKey, a.userId, b.privateKey, b.userId);
  }

  /** The keystream cipher; it is its own inverse. */
  function Cipher(secret: seq<byte>, data: seq<byte>): (r: seq<byte>)
    requires |secret| == SECRET_SIZE
    ensures |r| == |data|
  {
    seq(|data|, i requires 0 <= i < |data| => data[i] ^ secret[i % SECRET_SIZE] ^ ByteOf(i))
  }

  lemma CipherInverts(secret: seq<byte>, data: seq<byte>)
    requires |secret| == SECRET_SIZE
    ensures Cipher(secret, Cipher(secret, data)) == data
  {
    forall i | 0 <= i < |data| ensures Cipher(secret, Cipher(secret, data))[i] == data[i] {
      XorTwice(data[i], secret[i % SECRET_SIZE], ByteOf(i));
    }
  }

  lemma XorTwice(a: byte, k: byte, n: byte)
    ensures a ^ k ^ n ^ k ^ n == a
  {
  }

  // ---------------------------------------------------------------- padding

  function PaddedLength(n: nat): nat {
    (n + BLOCK - 1) / BLOCK * BLOCK
  }

  lemma PaddedLengthBounds(n: nat)
    requires n < MAX_MESSAGE - 32
    ensures PaddedLength(n) % BLOCK == 0 && n <= PaddedLength(n) < n + BLOCK && PaddedLength(n) <= 992
  {
  }

  /** The largest index at or above lo holding a NUL; lo - 1 when there is none. */
  function LastNul(s: seq<byte>, lo: nat): (i: int)
    ensures lo - 1 <= i
    ensures lo <= i ==> i < |s| && s[i] == 0
    ensures forall m :: i < m < |s| && lo <= m ==> s[m] != 0
  {
    if |s| <= lo then lo - 1
    else if s[|s| - 1] == 0 then |s| - 1
    else LastNul(s[..|s| - 1], lo)
  }

  /**
   How much of the decrypted buffer is kept: up to and including the last NUL among the final 16
   bytes (never looking at index 0), otherwise all but 16 bytes, otherwise everything.  Below 16
   bytes the unsigned bound wraps around and the first byte examined ends the scan.
   */
  function UnpadLength(plain: seq<byte>): (n: nat)
    requires |plain| >= 1
  {
    var len := |plain|;
    if len < BLOCK then len
    else
      var lo := if len > BLOCK then len - BLOCK else 1;
      var i := LastNul(plain, lo);
      if i >= lo then i + 1 else if len >= BLOCK + 2 then len - BLOCK else len
  }

  /** The backward scan of the decryptor, with the 64-bit wrap-around of its bound written out. */
  method Unpad(plain: seq<byte>) returns (n: nat)
    requires 1 <= |plain| <= MAX_MESSAGE
    ensures n == UnpadLength(plain)
  {
    var len := |plain|;
    var bound := if len >= BLOCK then len - BLOCK else len - BLOCK + 0x1_0000_0000_0000_0000;
    n := len;
    var i := len - 1;
    while i > 0
      invariant 0 <= i < len
      invariant n == len
      invariant i < len - 1 ==> len >= BLOCK && bound <= i + 1
      invariant forall m :: i < m < len ==> plain[m] != 0
    {
      if plain[i] == 0 || i < bound {
        n := i + 1;
        return;
      }
      i := i - 1;
    }
  }

  // ---------------------------------------------------------------- messages

  datatype Packet = Packet(sender: seq<byte>, recipient: seq<byte>, data: seq<byte>, signature: seq<byte>)

  predicate Party(me: KeyPair, ps: seq<Peer>) {
    && |me.userId| == ID_SIZE
    && |me.privateKey| == SECRET_SIZE
    && forall i :: 0 <= i < |ps| ==> |ps[i].publicKey| == PUBLIC_KEY_SIZE
  }

  lemma {:induction false} LookupFinds(ps: seq<Peer>, id: UserId)
    requires Lookup(ps, id).Some?
    ensures Lookup(ps, id).value in ps && Lookup(ps, id).value.userId == id
  {
    if ps[0].active && ps[0].userId == id {
    } else {
      LookupFinds(ps[1..], id);
    }
  }

  function PeerSecret(me: KeyPair, ps: seq<Peer>, id: UserId): (r: seq<byte>)
    requires Party(me, ps) && Lookup(ps, id).Some?
    ensures |r| == SECRET_SIZE
  {
    LookupFinds(ps, id);
    Secret(me.privateKey, Lookup(ps, id).value.publicKey)
  }

  function Encrypted(me: KeyPair, ps: seq<Peer>, text: seq<byte>, recipient: UserId, pad: seq<byte>): Option<Packet>
    requires Party(me, ps) && |recipient| == ID_SIZE
  {
    if Lookup(ps, recipient).None? || |text| >= MAX_MESSAGE - 32 then None
    else
      var secret := PeerSecret(me, ps, recipient);
      Some(Packet(me.userId, recipient, Cipher(secret, text + pad), Mac(me.userId, recipient, secret)))
  }

  predicate Framed(p: Packet) {
    |p.sender| == ID_SIZE && |p.recipient| == ID_SIZE
  }

  /** For us, from a known sender, and with the right MAC; the MAC does not cover the data. */
  predicate Authentic(me: KeyPair, ps: seq<Peer>, p: Packet)
    requires Party(me, ps) && Framed(p)
  {
    && p.recipient == me.userId && Lookup(ps, p.sender).Some?
    && p.signature == Mac(p.sender, p.recipient, PeerSecret(me, ps, p.sender))
  }

  /** What decryption takes for granted, and only of packets it accepts: 1 to 1024 bytes, and room for a terminator. */
  predicate Readable(me: KeyPair, ps: seq<Peer>, p: Packet, capacity: nat)
    requires Party(me, ps)
  {
    Framed(p) && (Authentic(me, ps, p) ==> 1 <= |p.data| <= MAX_MESSAGE && capacity > 0)
  }

  function Decrypted(me: KeyPair, ps: seq<Peer>, p: Packet, capacity: nat): Option<seq<byte>>
    requires Party(me, ps) && Readable(me, ps, p, capacity)
  {
    if !Authentic(me, ps, p) then None
    else
      var plain := Cipher(PeerSecret(me, ps, p.sender), p.data);
      var n := UnpadLength(plain);
      UnpadLengthInRange(plain);
      Some(plain[..if n >= capacity then capacity - 1 else n])
  }

  lemma UnpadLengthInRange(plain: seq<byte>)
    requires |plain| >= 1
    ensures UnpadLength(plain) <= |plain|
  {
  }

  ghost predicate HoldEachOther(a: KeyPair, pa: seq<Peer>, b: KeyPair, pb: seq<Peer>) {
    && Honest(a) && Honest(b) && Party(a, pa) && Party(b, pb)
    && Lookup(pa, b.userId).Some? && Lookup(pa, b.userId).value.publicKey == b.publicKey
    && Lookup(pb, a.userId).Some? && Lookup(pb, a.userId).value.publicKey == a.publicKey
  }

  /**
   Between two parties holding each other's keys a nonempty message is accepted exactly when the
   parties share the user id and the upper half of the private key; what is then returned is a
   prefix, of the unpadded length, of the text followed by its padding.
   */
  lemma {:induction false} AcceptedExactly(
    a: KeyPair, pa: seq<Peer>, b: KeyPair, pb: seq<Peer>, text: seq<byte>, pad: seq<byte>, capacity: nat)
    requires HoldEachOther(a, pa, b, pb)
    requires 1 <= |text| < MAX_MESSAGE - 32 && |text + pad| == PaddedLength(|text|)
    requires capacity > 0
    ensures Encrypted(a, pa, text, b.userId, pad).Some?
    ensures var p := Encrypted(a, pa, text, b.userId, pad).value;
            && Readable(b, pb, p, capacity)
            && |p.data| % BLOCK == 0 && |text| <= |p.data| < |text| + BLOCK && |p.data| <= 992
            && (Decrypted(b, pb, p, capacity).Some? <==>
                a.userId == b.userId && a.privateKey[16..] == b.privateKey[16..])
            && (Decrypted(b, pb, p, capacity).Some? ==>
                var n := UnpadLength(text + pad);
                && n <= |text + pad|
                && Decrypted(b, pb, p, capacity).value == (text + pad)[..if n >= capacity then capacity - 1 else n])
  {
    var p := Encrypted(a, pa, text, b.userId, pad).value;
    PaddedLengthBounds(|text|);
    var sa, sb := PeerSecret(a, pa, b.userId), PeerSecret(b, pb, a.userId);
    SecretsAgreeExactly(a, b);
    MixCancels(a.userId + b.userId, sa, sb, Salt(13, 0));
    if sa == sb {
      CipherInverts(sa, text + pad);
      UnpadLengthInRange(text + pad);
    }
  }

  /** What the receiver prints: the returned buffer as a C string. */
  function Displayed(plain: seq<byte>): seq<byte>
    requires |plain| >= 1
  {
    UnpadLengthInRange(plain);
    var kept := plain[..UnpadLength(plain)];
    kept[..StrLen(kept)]
  }

  lemma LastNulUnique(s: seq<byte>, lo: nat, k: nat)
    requires lo <= k < |s| && s[k] == 0 && forall m :: k < m < |s| ==> s[m] != 0
    ensures LastNul(s, lo) == k
  {
  }

  /** Unpadding gives the text back exactly when it fills one block, or the first padding byte happened to be NUL. */
  lemma {:induction false} UnpaddingRestoresExactly(text: seq<byte>, pad: seq<byte>)
    requires 1 <= |text| < MAX_MESSAGE - 32 && 0 !in text && |text + pad| == PaddedLength(|text|)
    ensures Displayed(text + pad) == text <==> |text| == BLOCK || (pad != [] && pad[0] == 0)
  {
    PaddedLengthBounds(|text|);
    var plain, n := text + pad, UnpadLength(text + pad);
    UnpadLengthInRange(plain);
    var kept := plain[..n];
    assert forall m :: 0 <= m < |text| ==> plain[m] == text[m] && plain[m] in text;
    if 0 in pad {
      UnpadStopsInPadding(text, pad);
      DisplayedWithNul(text, pad, kept);
    } else {
      assert forall m :: |text| <= m < |plain| ==> plain[m] == pad[m - |text|] && plain[m] in pad;
      assert 0 !in kept;
      StrLenIsFirstNul(kept, n);
      assert Displayed(plain) == kept;
      if |plain| == BLOCK {
        assert kept == plain;
        assert kept == text <==> pad == [];
      } else {
        assert n == |plain| - BLOCK < |text|;
      }
    }
  }

  lemma UnpadStopsInPadding(text: seq<byte>, pad: seq<byte>)
    requires 1 <= |text| && 0 in pad && BLOCK <= |text + pad| < |text| + BLOCK
    ensures |text| < UnpadLength(text + pad) <= |text + pad|
    ensures (text + pad)[UnpadLength(text + pad) - 1] == 0
  {
    var plain, k := text + pad, LastNul(pad, 0);
    var m :| 0 <= m < |pad| && pad[m] == 0;
    assert k >= 0;
    assert forall m :: |text| + k < m < |plain| ==> plain[m] == pad[m - |text|];
    LastNulUnique(plain, if |plain| > BLOCK then |plain| - BLOCK else 1, |text| + k);
  }

  lemma DisplayedWithNul(text: seq<byte>, pad: seq<byte>, kept: seq<byte>)
    requires 0 !in text && pad != [] && |text| < |kept| && kept <= text + pad
    requires exists m :: |text| <= m < |kept| && kept[m] == 0
    ensures kept[..StrLen(kept)] == text <==> pad[0] == 0
  {
    assert kept[..|text|] == text;
    assert kept[|text|] == pad[0];
    if pad[0] == 0 {
      StrLenIsFirstNul(kept, |text|);
    } else {
      assert StrLen(kept) != |text|;
    }
  }

  // ---------------------------------------------------------------- keys learned over the wire

  /** The key packet a client sends about itself. */
  function PacketOf(k: KeyPair): (p: KeyPacket)
    requires Honest(k)
    ensures Sized(p) && Verified(p)
  {
    var field := StrField(k.nickname, NICKNAME_SIZE);
    KeyPacket(k.userId, k.publicKey, field, Signature(k.userId + k.publicKey + field))
  }

  /** What a client does with a received key packet: its own id is ignored. */
  function Learn(me: UserId, ps: seq<Peer>, p: KeyPacket): seq<Peer>
    requires Sized(p)
  {
    if p.userId == me then ps else Insert(ps, p)
  }

  predicate AllSized(packets: seq<KeyPacket>) {
    forall i :: 0 <= i < |packets| ==> Sized(packets[i])
  }

  function LearnAll(me: UserId, packets: seq<KeyPacket>): seq<Peer>
    requires AllSized(packets)
  {
    if packets == [] then [] else Learn(me, LearnAll(me, packets[..|packets| - 1]), packets[|packets| - 1])
  }

  lemma {:induction false} NeverLearnsItself(me: UserId, packets: seq<KeyPacket>)
    requires AllSized(packets)
    ensures forall i :: 0 <= i < |LearnAll(me, packets)| ==> LearnAll(me, packets)[i].userId != me
    decreases |packets|
  {
    if packets == [] {
    } else {
      NeverLearnsItself(me, packets[..|packets| - 1]);
    }
  }

  /**
   Consequently no message between parties who learned their keys from key packets is ever accepted:
   acceptance needs equal user ids, and a client never stores a key under its own id.
   */
  lemma {:induction false} LearnedPeersNeverUnderstand(
    a: KeyPair, pa: seq<Peer>, b: KeyPair, packets: seq<KeyPacket>, text: seq<byte>, pad: seq<byte>, capacity: nat)
    requires AllSized(packets)
    requires HoldEachOther(a, pa, b, LearnAll(b.userId, packets))
    requires 1 <= |text| < MAX_MESSAGE - 32 && |text + pad| == PaddedLength(|text|) && capacity > 0
    ensures var p := Encrypted(a, pa, text, b.userId, pad);
            && p.Some? && Readable(b, LearnAll(b.userId, packets), p.value, capacity)
            && Decrypted(b, LearnAll(b.userId, packets), p.value, capacity) == None
  {
    var pb := LearnAll(b.userId, packets);
    NeverLearnsItself(b.userId, packets);
    LookupFinds(pb, a.userId);
    AcceptedExactly(a, pa, b, pb, text, pad, capacity);
  }

  lemma {:induction false} LearnedTable(me: UserId, packets: seq<KeyPacket>)
    requires AllSized(packets)
    ensures Distinct(LearnAll(me, packets)) && |LearnAll(me, packets)| <= MAX_PEERS
    ensures forall i :: 0 <= i < |LearnAll(me, packets)| ==> |LearnAll(me, packets)[i].publicKey| == PUBLIC_KEY_SIZE
    decreases |packets|
  {
    if packets != [] {
      var n := |packets| - 1;
      LearnedTable(me, packets[..n]);
      InsertRefines(LearnAll(me, packets[..n]), packets[n]);
    }
  }

  /** Whatever was received before, a key packet taken while the table has room can be looked up. */
  lemma {:induction false} LearnsTheRealKey(me: UserId, packets: seq<KeyPacket>, k: KeyPair)
    requires AllSized(packets) && Honest(k) && k.userId != me && |LearnAll(me, packets)| < MAX_PEERS
    ensures AllSized(packets + [PacketOf(k)])
    ensures var ps := LearnAll(me, packets + [PacketOf(k)]);
            Lookup(ps, k.userId).Some? && Lookup(ps, k.userId).value.publicKey == k.publicKey
  {
    var all, ps, p := packets + [PacketOf(k)], LearnAll(me, packets), PacketOf(k);
    assert all[..|all| - 1] == packets;
    assert LearnAll(me, all) == Insert(ps, p);
    LearnedTable(me, packets);
    InsertRefines(ps, p);
    var qs, i := Insert(ps, p), IndexOf(ps, k.userId);
    assert qs[i] == PeerOf(p);
    IndexOfMember(qs, i);
    LookupIsFirstActive(qs, k.userId);
  }

  /**
   Two clients with different ids exchange key packets, each with room in its table: each then holds
   the other's real key, and no message from one is accepted by the other.
   */
  lemma {:induction false} ExchangedKeysNeverWork(
    a: KeyPair, seenByA: seq<KeyPacket>, b: KeyPair, seenByB: seq<KeyPacket>,
    text: seq<byte>, pad: seq<byte>, capacity: nat)
    requires Honest(a) && Honest(b) && a.userId != b.userId && AllSized(seenByA) && AllSized(seenByB)
    requires |LearnAll(a.userId, seenByA)| < MAX_PEERS && |LearnAll(b.userId, seenByB)| < MAX_PEERS
    requires 1 <= |text| < MAX_MESSAGE - 32 && |text + pad| == PaddedLength(|text|) && capacity > 0
    ensures AllSized(seenByA + [PacketOf(b)]) && AllSized(seenByB + [PacketOf(a)])
    ensures var pa, pb := LearnAll(a.userId, seenByA + [PacketOf(b)]), LearnAll(b.userId, seenByB + [PacketOf(a)]);
            && HoldEachOther(a, pa, b, pb)
            && var p := Encrypted(a, pa, text, b.userId, pad);
               p.Some? && Readable(b, pb, p.value, capacity) && Decrypted(b, pb, p.value, capacity) == None
  {
    LearnsTheRealKey(a.userId, seenByA, b);
    LearnsTheRealKey(b.userId, seenByB, a);
    LearnedTable(a.userId, seenByA + [PacketOf(b)]);
    LearnedTable(b.userId, seenByB + [PacketOf(a)]);
    var pa, pb := LearnAll(a.userId, seenByA + [PacketOf(b)]), LearnAll(b.userId, seenByB + [PacketOf(a)]);
    AcceptedExactly(a, pa, b, pb, text, pad, capacity);
  }

  // ---------------------------------------------------------------- the context in place

  method ComputeMix(x: seq<byte>, y: seq<byte>, step: nat, start: nat) returns (out: array<byte>)
    requires Block32(x) && Block32(y)
    ensures out[..] == Mix(x, y, Salt(step, start))
  {
    out := new byte[SECRET_SIZE];
    for i := 0 to SECRET_SIZE
      invariant forall m :: 0 <= m < i ==> out[m] == Mix(x, y, Salt(step, start))[m]
    {
      out[i] := x[i] ^ y[i] ^ ByteOf(i * step + start);
    }
  }

  method ApplyCipher(secret: seq<byte>, data: seq<byte>) returns (out: array<byte>)
    requires |secret| == SECRET_SIZE
    ensures out[..] == Cipher(secret, data)
  {
    out := new byte[|data|];
    for i := 0 to |data|
      invariant forall m :: 0 <= m < i ==> out[m] == Cipher(secret, data)[m]
    {
      out[i] := data[i] ^ secret[i % SECRET_SIZE] ^ ByteOf(i);
    }
  }

  class Context {
    const keys: KeyPair
    const table: Table

    ghost predicate Valid()
      reads table, table.peers
    {
      table.Valid() && Honest(keys) && Party(keys, table.Used())
    }

    constructor (userId: seq<byte>, privateKey: seq<byte>, nickname: seq<byte>)
      requires |userId| == ID_SIZE && |privateKey| == SECRET_SIZE
      ensures Valid() && fresh(table) && fresh(table.peers) && table.Used() == []
      ensures keys.userId == userId && keys.privateKey == privateKey
      ensures keys.nickname == StrField(nickname, NICKNAME_SIZE)
    {
      var public := ComputeMix(privateKey, (privateKey + userId)[16..], 17, 42);
      keys := KeyPair(userId, privateKey, public[..], StrField(nickname, NICKNAME_SIZE));
      table := new Table();
    }

    method EncryptMessage(text: seq<byte>, recipient: UserId, random: seq<byte>) returns (r: Option<Packet>)
      requires Valid() && |recipient| == ID_SIZE && |random| >= BLOCK - 1
      ensures r == Encrypted(keys, table.Used(), text, recipient, random[..PaddedLength(|text|) - |text|])
    {
      var peer := table.FindPeer(recipient);
      if peer.None? || |text| >= MAX_MESSAGE - 32 {
        return None;
      }
      LookupFinds(table.Used(), recipient);
      var secret := ComputeMix(keys.privateKey, peer.value.publicKey, 31, 73);
      var padded := text;
      PaddedLengthBounds(|text|);
      while |padded| < PaddedLength(|text|)
        invariant |text| <= |padded| <= PaddedLength(|text|)
        invariant padded == text + random[..|padded| - |text|]
      {
        padded := padded + [random[|padded| - |text|]];
      }
      var data := ApplyCipher(secret[..], padded);
      var mac := ComputeMix(keys.userId + recipient, secret[..], 13, 0);
      r := Some(Packet(keys.userId, recipient, data[..], mac[..]));
    }

    method DecryptMessage(p: Packet, capacity: nat) returns (r: Option<seq<byte>>)
      requires Valid() && Readable(keys, table.Used(), p, capacity)
      ensures r == Decrypted(keys, table.Used(), p, capacity)
    {
      if p.recipient != keys.userId {
        return None;
      }
      var peer := table.FindPeer(p.sender);
      if peer.None? {
        return None;
      }
      LookupFinds(table.Used(), p.sender);
      var secret := ComputeMix(keys.privateKey, peer.value.publicKey, 31, 73);
      var expected := ComputeMix(p.sender + p.recipient, secret[..], 13, 0);
      if p.signature != expected[..] {
        return None;
      }
      var plain := ApplyCipher(secret[..], p.data);
      var n := Unpad(plain[..]);
      UnpadLengthInRange(plain[..]);
      if n >= capacity {
        n := capacity - 1;
      }
      r := Some(plain[..n]);
    }

    /** client_handle_key_exchange: true means the packet was ignored or accepted. */
    method HandleKeyExchange(p: KeyPacket) returns (ok: bool)
      requires Valid() && Sized(p)
      modifies table, table.peers
      ensures Valid()
      ensures table.Used() == Learn(keys.userId, old(table.Used()), p)
      ensures ok <==> p.userId == keys.userId || (|old(table.Used())| < MAX_PEERS && Verified(p))
    {
      if p.userId == keys.userId {
        return true;
      }
      ok := table.AddPeer(p);
    }
  }
}

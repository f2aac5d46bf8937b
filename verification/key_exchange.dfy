/** The self-signed key packets peers exchange, and their layout as 144 raw bytes. */
module KeyExchange {
  import opened Bytes

  const ID_SIZE := 16
  const PUBLIC_KEY_SIZE := 32
  const NICKNAME_SIZE := 64
  const SIGNATURE_SIZE := 32
  const PACKET_SIZE := ID_SIZE + PUBLIC_KEY_SIZE + NICKNAME_SIZE + SIGNATURE_SIZE

  datatype KeyPacket = KeyPacket(userId: seq<byte>, publicKey: seq<byte>, nickname: seq<byte>, signature: seq<byte>)

  predicate Sized(p: KeyPacket) {
    && |p.userId| == ID_SIZE
    && |p.publicKey| == PUBLIC_KEY_SIZE
    && |p.nickname| == NICKNAME_SIZE
    && |p.signature| == SIGNATURE_SIZE
  }

  function SignedPart(p: KeyPacket): seq<byte> {
    p.userId + p.publicKey + p.nickname
  }

  function Signature(s: seq<byte>): (r: seq<byte>)
    requires |s| == ID_SIZE + PUBLIC_KEY_SIZE + NICKNAME_SIZE
    ensures |r| == SIGNATURE_SIZE
  {
    seq(SIGNATURE_SIZE, i requires 0 <= i < SIGNATURE_SIZE => s[i] ^ s[i + 32] ^ s[i + 64] ^ ByteOf(i * 19))
  }

  predicate Verified(p: KeyPacket)
    requires Sized(p)
  {
    p.signature == Signature(SignedPart(p))
  }

  method ComputeSignature(s: seq<byte>) returns (signature: array<byte>)
    requires |s| == ID_SIZE + PUBLIC_KEY_SIZE + NICKNAME_SIZE
    ensures signature[..] == Signature(s)
  {
    signature := new byte[SIGNATURE_SIZE];
    for i := 0 to SIGNATURE_SIZE
      invariant forall m :: 0 <= m < i ==> signature[m] == Signature(s)[m]
    {
      signature[i] := s[i] ^ s[i + 32] ^ s[i + 64] ^ ByteOf(i * 19);
    }
  }

  /** Fills in a packet for the given identity; what is created always verifies. */
  method CreatePacket(userId: seq<byte>, publicKey: seq<byte>, nickname: seq<byte>) returns (p: KeyPacket)
    requires |userId| == ID_SIZE && |publicKey| == PUBLIC_KEY_SIZE
    ensures Sized(p) && Verified(p)
    ensures p.userId == userId && p.publicKey == publicKey && p.nickname == StrField(nickname, NICKNAME_SIZE)
  {
    var field := StrField(nickname, NICKNAME_SIZE);
    var signature := ComputeSignature(userId + publicKey + field);
    p := KeyPacket(userId, publicKey, field, signature[..]);
  }

  method VerifyPacket(p: KeyPacket) returns (ok: bool)
    requires Sized(p)
    ensures ok <==> Verified(p)
  {
    var expected := ComputeSignature(SignedPart(p));
    ok := p.signature == expected[..];
  }

  // ---------------------------------------------------------------- raw layout

  function Serialize(p: KeyPacket): (r: seq<byte>)
    requires Sized(p)
    ensures |r| == PACKET_SIZE
  {
    p.userId + p.publicKey + p.nickname + p.signature
  }

  function Deserialize(raw: seq<byte>): (p: KeyPacket)
    requires |raw| == PACKET_SIZE
    ensures Sized(p)
  {
    KeyPacket(raw[..16], raw[16..48], raw[48..112], raw[112..])
  }

  /** Where the fields lie in the raw packet. */
  lemma {:induction false} SerializedLayout(p: KeyPacket)
    requires Sized(p)
    ensures var raw := Serialize(p);
            && raw[0..16] == p.userId && raw[16..48] == p.publicKey && raw[48..112] == p.nickname
            && raw[112..144] == p.signature && |raw| == 144
  {
  }

  lemma DeserializeSerialize(p: KeyPacket)
    requires Sized(p)
    ensures Deserialize(Serialize(p)) == p
  {
    var q := Deserialize(Serialize(p));
    assert q.userId == p.userId;
    assert q.publicKey == p.publicKey;
    assert q.nickname == p.nickname;
    assert q.signature == p.signature;
  }

  predicate SignedSize(s: seq<byte>) {
    |s| == ID_SIZE + PUBLIC_KEY_SIZE + NICKNAME_SIZE
  }

  /** The XOR of the three signed bytes in column i. */
  function Column(s: seq<byte>, i: nat): byte
    requires SignedSize(s) && i < SIGNATURE_SIZE
  {
    s[i] ^ s[i + 32] ^ s[i + 64]
  }

  lemma SignatureAt(s: seq<byte>, i: nat)
    requires SignedSize(s) && i < SIGNATURE_SIZE
    ensures Signature(s)[i] == Column(s, i) ^ ByteOf(i * 19)
  {
  }

  lemma DifferentColumns(x: byte, y: byte, d: byte)
    requires x != y
    ensures x ^ d != y ^ d
  {
  }

  /** Two signed parts share a signature exactly when they agree in the XOR of each of the 32 columns. */
  lemma {:induction false} SameSignatureExactly(s: seq<byte>, t: seq<byte>)
    requires SignedSize(s) && SignedSize(t)
    ensures Signature(s) == Signature(t) <==> forall i :: 0 <= i < SIGNATURE_SIZE ==> Column(s, i) == Column(t, i)
  {
    if i :| 0 <= i < SIGNATURE_SIZE && Column(s, i) != Column(t, i) {
      SignatureAt(s, i);
      SignatureAt(t, i);
      DifferentColumns(Column(s, i), Column(t, i), ByteOf(i * 19));
    } else {
      forall i | 0 <= i < SIGNATURE_SIZE ensures Signature(s)[i] == Signature(t)[i] {
        SignatureAt(s, i);
        SignatureAt(t, i);
      }
    }
  }

  lemma CoveredByteMatters(s: seq<byte>, i: nat, x: byte)
    requires |s| == ID_SIZE + PUBLIC_KEY_SIZE + NICKNAME_SIZE && i < 96 && x != s[i]
    ensures Signature(s[i := x]) != Signature(s)
  {
    var j, t := if i < 32 then i else if i < 64 then i - 32 else i - 64, s[i := x];
    XorKeepsDifference(s[j], s[j + 32], s[j + 64], ByteOf(j * 19), x);
    assert Signature(s)[j] != Signature(t)[j];
  }

  /**
   The signature covers the first 96 signed bytes and leaves the last 16 nickname bytes out: one
   altered byte of a verified packet goes unnoticed exactly when it is one of those.
   */
  lemma {:induction false} SingleByteChangeNoticed(p: KeyPacket, i: nat, x: byte)
    requires Sized(p) && Verified(p) && i < |SignedPart(p)| && x != SignedPart(p)[i]
    ensures p.signature == Signature(SignedPart(p)[i := x]) <==> i >= 96
  {
    if i < 96 {
      CoveredByteMatters(SignedPart(p), i, x);
    } else {
      assert Signature(SignedPart(p)[i := x]) == Signature(SignedPart(p));
    }
  }

  lemma XorKeepsDifference(a: byte, b: byte, c: byte, d: byte, x: byte)
    ensures x != a ==> x ^ b ^ c ^ d != a ^ b ^ c ^ d
    ensures x != b ==> a ^ x ^ c ^ d != a ^ b ^ c ^ d
    ensures x != c ==> a ^ b ^ x ^ d != a ^ b ^ c ^ d
  {
  }
}

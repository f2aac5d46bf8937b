/**
 The link cipher between client and server: an XOR stream under a 32-byte session key followed by a
 16-byte tag holding the XOR of the plaintext bytes lane by lane.  The client shifts its key after
 every thousand messages; the server never does.
 */
module LinkCipher {
  import opened Bytes

  const KEY_SIZE := 32
  const TAG_SIZE := 16
  const ROTATION := 1000

  // ---------------------------------------------------------------- frames as values

  function XorStream(key: seq<byte>, data: seq<byte>): (r: seq<byte>)
    requires |key| == KEY_SIZE
    ensures |r| == |data|
  {
    seq(|data|, i requires 0 <= i < |data| => data[i] ^ key[i % KEY_SIZE])
  }

  /** XOR of the bytes whose index is j modulo 16. */
  function Lane(data: seq<byte>, j: nat): byte {
    if |data| == 0 then 0
    else
      var n := |data| - 1;
      Lane(data[..n], j) ^ (if n % TAG_SIZE == j then data[n] else 0)
  }

  function Tag(data: seq<byte>): (r: seq<byte>)
    ensures |r| == TAG_SIZE
  {
    seq(TAG_SIZE, j requires 0 <= j < TAG_SIZE => Lane(data, j))
  }

  function Seal(key: seq<byte>, plain: seq<byte>): (frame: seq<byte>)
    requires |key| == KEY_SIZE
    ensures |frame| == |plain| + TAG_SIZE
  {
    XorStream(key, plain) + Tag(plain)
  }

  function Body(frame: seq<byte>): (r: seq<byte>)
    requires |frame| >= TAG_SIZE
    ensures |r| == |frame| - TAG_SIZE
  {
    frame[..|frame| - TAG_SIZE]
  }

  function Trailer(frame: seq<byte>): (r: seq<byte>)
    requires |frame| >= TAG_SIZE
    ensures |r| == TAG_SIZE
  {
    frame[|frame| - TAG_SIZE..]
  }

  function Open(key: seq<byte>, frame: seq<byte>): Option<seq<byte>>
    requires |key| == KEY_SIZE
  {
    if |frame| < TAG_SIZE then None
    else
      var plain := XorStream(key, Body(frame));
      if Tag(plain) == Trailer(frame) then Some(plain) else None
  }

  // ---------------------------------------------------------------- what the tag accepts

  lemma {:induction false} LaneIsLinear(a: seq<byte>, b: seq<byte>, j: nat)
    requires |a| == |b|
    ensures Lane(Xor(a, b), j) == Lane(a, j) ^ Lane(b, j)
    decreases |a|
  {
    if |a| == 0 {
    } else {
      var n := |a| - 1;
      assert Xor(a, b)[..n] == Xor(a[..n], b[..n]);
      LaneIsLinear(a[..n], b[..n], j);
    }
  }

  lemma {:induction false} LaneOfZeros(d: seq<byte>, j: nat)
    requires forall i :: 0 <= i < |d| ==> d[i] == 0
    ensures Lane(d, j) == 0
    decreases |d|
  {
    if |d| == 0 {
    } else {
      LaneOfZeros(d[..|d| - 1], j);
    }
  }

  lemma {:induction false} LaneOfSingle(d: seq<byte>, p: nat, j: nat)
    requires p < |d| && forall i :: 0 <= i < |d| && i != p ==> d[i] == 0
    ensures Lane(d, j) == if p % TAG_SIZE == j then d[p] else 0
    decreases |d|
  {
    var n := |d| - 1;
    if p == n {
      LaneOfZeros(d[..n], j);
    } else {
      LaneOfSingle(d[..n], p, j);
    }
  }

  /** The per-lane condition: the changes to the data bytes cancel the change to the tag byte. */
  ghost predicate LanesBalance(f: seq<byte>, g: seq<byte>)
    requires |f| == |g| >= TAG_SIZE
  {
    forall j :: 0 <= j < TAG_SIZE ==> Lane(Xor(Body(f), Body(g)), j) == Trailer(f)[j] ^ Trailer(g)[j]
  }

  /** Under one key, an altered frame of the same length is accepted iff every lane balances. */
  lemma {:induction false} AlteredFrameAccepted(key: seq<byte>, f: seq<byte>, g: seq<byte>)
    requires |key| == KEY_SIZE && |f| == |g|
    requires Open(key, f).Some?
    ensures Open(key, g).Some? <==> LanesBalance(f, g)
  {
    var p, q := XorStream(key, Body(f)), XorStream(key, Body(g));
    assert Xor(p, q) == Xor(Body(f), Body(g)) by {
      forall i | 0 <= i < |p| ensures Xor(p, q)[i] == Xor(Body(f), Body(g))[i] {
        CancelKey(Body(f)[i], Body(g)[i], key[i % KEY_SIZE]);
      }
    }
    forall j | 0 <= j < TAG_SIZE
      ensures Lane(Xor(Body(f), Body(g)), j) == Trailer(f)[j] ^ Lane(q, j)
    {
      LaneIsLinear(p, q, j);
      assert Tag(p)[j] == Trailer(f)[j];
    }
    if Open(key, g).Some? {
      forall j | 0 <= j < TAG_SIZE ensures Lane(Xor(Body(f), Body(g)), j) == Trailer(f)[j] ^ Trailer(g)[j] {
        assert Tag(q)[j] == Trailer(g)[j];
      }
    }
    if LanesBalance(f, g) {
      forall j | 0 <= j < TAG_SIZE ensures Tag(q)[j] == Trailer(g)[j] {
        CancelLeft(Trailer(f)[j], Lane(q, j), Trailer(g)[j]);
      }
      assert Tag(q) == Trailer(g);
    }
  }

  lemma CancelKey(a: byte, b: byte, k: byte)
    ensures (a ^ k) ^ (b ^ k) == a ^ b
  {
  }

  lemma CancelLeft(a: byte, b: byte, c: byte)
    requires a ^ b == a ^ c
    ensures b == c
  {
  }

  /** An unaltered frame always round-trips. */
  lemma {:induction false} SealedFrameOpens(key: seq<byte>, plain: seq<byte>)
    requires |key| == KEY_SIZE
    ensures Open(key, Seal(key, plain)) == Some(plain)
  {
    var frame := Seal(key, plain);
    assert Body(frame) == XorStream(key, plain);
    assert XorStream(key, XorStream(key, plain)) == plain;
    assert Trailer(frame) == Tag(plain);
  }

  lemma ZeroXor(x: byte)
    ensures 0 ^ x == x
  {
  }

  /** The bytes sent: combined with the plaintext they give back the key, repeated along the message. */
  lemma {:induction false} SealedBytes(key: seq<byte>, plain: seq<byte>, i: nat)
    requires |key| == KEY_SIZE && i < |plain|
    ensures plain[i] ^ Seal(key, plain)[i] == key[i % KEY_SIZE]
    ensures plain[i] == 0 ==> Seal(key, plain)[i] == key[i % KEY_SIZE]
    ensures Trailer(Seal(key, plain)) == Tag(plain)
  {
    assert Seal(key, plain)[i] == plain[i] ^ key[i % KEY_SIZE];
    XorBack(plain[i], key[i % KEY_SIZE]);
    ZeroXor(key[i % KEY_SIZE]);
  }

  lemma XorBack(a: byte, b: byte)
    ensures a ^ (a ^ b) == b
  {
  }


  /** One more byte at index n changes lane n modulo 16 by that byte, and no other lane. */
  lemma {:induction false} TagGrows(plain: seq<byte>, x: byte, j: nat)
    requires j < TAG_SIZE
    ensures Tag([])[j] == 0
    ensures Tag(plain + [x])[j] == if |plain| % TAG_SIZE == j then Tag(plain)[j] ^ x else Tag(plain)[j]
  {
    LaneStep(plain + [x], |plain|, j);
    assert (plain + [x])[..|plain|] == plain && (plain + [x])[..|plain| + 1] == plain + [x];
  }

  /** Up to 16 bytes the tag is the plaintext itself, padded with zeros. */
  lemma {:induction false} ShortTag(key: seq<byte>, plain: seq<byte>, j: nat)
    requires |key| == KEY_SIZE && |plain| <= TAG_SIZE && j < TAG_SIZE
    ensures Trailer(Seal(key, plain))[j] == if j < |plain| then plain[j] else 0
    decreases |plain|
  {
    assert Trailer(Seal(key, plain)) == Tag(plain);
    if plain != [] {
      var n := |plain| - 1;
      ShortTag(key, plain[..n], j);
      assert Trailer(Seal(key, plain[..n])) == Tag(plain[..n]);
      TagGrows(plain[..n], plain[n], j);
      assert plain[..n] + [plain[n]] == plain;
      ZeroXor(plain[n]);
    }
  }

  lemma DataByteChangeUnbalances(f: seq<byte>, p: nat, x: byte)
    requires TAG_SIZE <= |f| && p < |f| - TAG_SIZE && x != f[p]
    ensures !LanesBalance(f, f[p := x])
  {
    var g := f[p := x];
    var d, j := Xor(Body(f), Body(g)), p % TAG_SIZE;
    LaneOfSingle(d, p, j);
    NonzeroXor(f[p], x);
    assert Trailer(f)[j] == Trailer(g)[j];
    NoChange(Trailer(f)[j]);
  }

  lemma TagByteChangeUnbalances(f: seq<byte>, p: nat, x: byte)
    requires TAG_SIZE <= |f| && |f| - TAG_SIZE <= p < |f| && x != f[p]
    ensures !LanesBalance(f, f[p := x])
  {
    var g := f[p := x];
    var d, j := Xor(Body(f), Body(g)), p - (|f| - TAG_SIZE);
    forall i | 0 <= i < |d| ensures d[i] == 0 {
      NoChange(f[i]);
    }
    LaneOfZeros(d, j);
    NonzeroXor(f[p], x);
    assert Trailer(g)[j] == x && Trailer(f)[j] == f[p];
  }

  /** Changing exactly one byte of an accepted frame, data or tag, makes it rejected. */
  lemma {:induction false} SingleByteChangeRejected(key: seq<byte>, f: seq<byte>, p: nat, x: byte)
    requires |key| == KEY_SIZE && Open(key, f).Some?
    requires p < |f| && x != f[p]
    ensures Open(key, f[p := x]) == None
  {
    AlteredFrameAccepted(key, f, f[p := x]);
    if p < |f| - TAG_SIZE {
      DataByteChangeUnbalances(f, p, x);
    } else {
      TagByteChangeUnbalances(f, p, x);
    }
  }

  lemma NoChange(a: byte)
    ensures a ^ a == 0
  {
  }

  lemma NonzeroXor(a: byte, b: byte)
    requires a != b
    ensures a ^ b != 0
  {
  }

  // ---------------------------------------------------------------- key rotation

  /** The sending side: session key, messages since the last rotation, 32-bit sequence number. */
  datatype Link = Link(key: seq<byte>, rotation: nat, sequence: nat)

  function Fresh(key: seq<byte>): Link {
    Link(key, 0, 0)
  }

  function Rotated(key: seq<byte>): (r: seq<byte>)
    ensures |r| == |key|
  {
    seq(|key|, i requires 0 <= i < |key| => key[i] + 1)
  }

  /** The client's state after one successful encryption; it does not depend on the message. */
  function AfterSeal(l: Link): Link {
    var s := (l.sequence + 1) % U32;
    if l.rotation + 1 >= ROTATION then Link(Rotated(l.key), 0, s) else Link(l.key, l.rotation + 1, s)
  }

  function AfterSeals(l: Link, n: nat): Link {
    if n == 0 then l else AfterSeal(AfterSeals(l, n - 1))
  }

  function ShiftedKey(key: seq<byte>, n: nat): (r: seq<byte>)
    ensures |r| == |key|
  {
    seq(|key|, i requires 0 <= i < |key| => key[i] + ByteOf(n / ROTATION))
  }

  lemma NextMessage(n: nat)
    requires n > 0
    ensures n % ROTATION == 0 ==> (n - 1) % ROTATION == ROTATION - 1 && n / ROTATION == (n - 1) / ROTATION + 1
    ensures n % ROTATION != 0 ==> n % ROTATION == (n - 1) % ROTATION + 1 && n / ROTATION == (n - 1) / ROTATION
    ensures ((n - 1) % U32 + 1) % U32 == n % U32
  {
  }

  /** Closed form of the client's state after n messages. */
  lemma {:induction false} AfterSealsClosedForm(key: seq<byte>, n: nat)
    ensures AfterSeals(Fresh(key), n) == Link(ShiftedKey(key, n), n % ROTATION, n % U32)
  {
    if n == 0 {
      forall i | 0 <= i < |key| ensures ShiftedKey(key, 0)[i] == key[i] {
        AddingByteOf(key[i], 0);
      }
    } else {
      AfterSealsClosedForm(key, n - 1);
      NextMessage(n);
      if n % ROTATION == 0 {
        ShiftOnce(key, n);
      } else {
        assert ShiftedKey(key, n - 1) == ShiftedKey(key, n);
      }
    }
  }

  lemma ShiftOnce(key: seq<byte>, n: nat)
    requires n > 0 && n / ROTATION == (n - 1) / ROTATION + 1
    ensures Rotated(ShiftedKey(key, n - 1)) == ShiftedKey(key, n)
  {
    var q := (n - 1) / ROTATION;
    ByteOfSuccessor(q);
    forall i | 0 <= i < |key| ensures Rotated(ShiftedKey(key, n - 1))[i] == ShiftedKey(key, n)[i] {
      AddAssociates(key[i], ByteOf(q));
    }
  }

  lemma AddAssociates(a: byte, b: byte)
    ensures (a + b) + 1 == a + (b + 1)
  {
  }

  /** The frame the client sends as its k-th message, counting from 0. */
  function KthFrame(key: seq<byte>, k: nat, plain: seq<byte>): seq<byte>
    requires |key| == KEY_SIZE
  {
    AfterSealsClosedForm(key, k);
    Seal(AfterSeals(Fresh(key), k).key, plain)
  }

  predicate InPhase(k: nat) {
    (k / ROTATION) % 256 == 0
  }

  /**
   The server, which keeps the initial key, recovers the k-th message iff the client's key has come
   back to it; out of phase its XOR output differs from the plaintext in every single byte.
   */
  lemma {:induction false} ServerRecoversExactlyInPhase(key: seq<byte>, k: nat, plain: seq<byte>)
    requires |key| == KEY_SIZE && plain != []
    ensures Open(key, KthFrame(key, k, plain)) == Some(plain) <==> InPhase(k)
    ensures !InPhase(k) ==>
              forall i :: 0 <= i < |plain| ==> XorStream(key, Body(KthFrame(key, k, plain)))[i] != plain[i]
  {
    AfterSealsClosedForm(key, k);
    var sent := ShiftedKey(key, k);
    var frame := KthFrame(key, k, plain);
    assert Body(frame) == XorStream(sent, plain);
    if InPhase(k) {
      forall i | 0 <= i < KEY_SIZE ensures sent[i] == key[i] {
        AddingByteOf(key[i], k / ROTATION);
      }
      assert sent == key;
      SealedFrameOpens(key, plain);
    } else {
      var got := XorStream(key, Body(frame));
      forall i | 0 <= i < |plain| ensures got[i] != plain[i] {
        AddingByteOf(key[i % KEY_SIZE], k / ROTATION);
        DifferentKeys(plain[i], sent[i % KEY_SIZE], key[i % KEY_SIZE]);
      }
      assert got[0] != plain[0];
    }
  }

  lemma DifferentKeys(p: byte, a: byte, b: byte)
    requires a != b
    ensures (p ^ a) ^ b != p
  {
  }

  // ---------------------------------------------------------------- the two implementations

  /** The first n bytes of the data, lane by lane: what the tag loop has accumulated so far. */
  method ComputeTag(data: array<byte>, n: nat) returns (tag: array<byte>)
    requires n <= data.Length
    ensures fresh(tag) && tag[..] == Tag(data[..n])
  {
    tag := new byte[TAG_SIZE](_ => 0);
    for i := 0 to n
      invariant forall j :: 0 <= j < TAG_SIZE ==> tag[j] == Lane(data[..i], j)
    {
      var lane := i % TAG_SIZE;
      forall j | 0 <= j < TAG_SIZE
        ensures Lane(data[..i + 1], j) == if j == lane then tag[j] ^ data[i] else tag[j]
      {
        LaneStep(data[..], i, j);
      }
      tag[lane] := tag[lane] ^ data[i];
    }
  }

  lemma LaneStep(data: seq<byte>, i: nat, j: nat)
    requires i < |data|
    ensures Lane(data[..i + 1], j) == if i % TAG_SIZE == j then Lane(data[..i], j) ^ data[i] else Lane(data[..i], j)
  {
    assert data[..i + 1][..i] == data[..i];
  }

  method StreamXor(key: array<byte>, input: seq<byte>, out: array<byte>)
    requires key.Length == KEY_SIZE && |input| <= out.Length && key != out
    modifies out
    ensures out[..|input|] == XorStream(key[..], input)
    ensures out[|input|..] == old(out[|input|..])
  {
    for i := 0 to |input|
      invariant forall m :: 0 <= m < i ==> out[m] == input[m] ^ key[m % KEY_SIZE]
      invariant forall m :: |input| <= m < out.Length ==> out[m] == old(out[m])
    {
      out[i] := input[i] ^ key[i % KEY_SIZE];
    }
  }

  method SealInto(key: array<byte>, plain: seq<byte>) returns (frame: seq<byte>)
    requires key.Length == KEY_SIZE
    ensures frame == Seal(key[..], plain)
  {
    var n := |plain|;
    var cipher := new byte[n];
    StreamXor(key, plain, cipher);
    var copy := new byte[n](i requires 0 <= i < n => plain[i]);
    assert copy[..n] == plain;
    var tag := ComputeTag(copy, n);
    assert cipher[..] == cipher[..n];
    frame := cipher[..] + tag[..];
  }

  method OpenFrom(key: array<byte>, frame: seq<byte>, capacity: nat) returns (r: Option<seq<byte>>)
    requires key.Length == KEY_SIZE
    ensures r == if |frame| >= TAG_SIZE && capacity < |frame| - TAG_SIZE then None else Open(key[..], frame)
  {
    if |frame| < TAG_SIZE {
      return None;
    }
    var n := |frame| - TAG_SIZE;
    if capacity < n {
      return None;
    }
    var plain := new byte[n];
    StreamXor(key, Body(frame), plain);
    var expected := ComputeTag(plain, n);
    assert plain[..] == plain[..n] == XorStream(key[..], Body(frame));
    if expected[..] != Trailer(frame) {
      return None;
    }
    r := Some(plain[..]);
  }

  /** The client's encryption context. */
  class ClientCipher {
    const sessionKey: array<byte>
    var rotationCounter: nat
    var sequenceNumber: nat

    ghost predicate Valid()
      reads this
    {
      sessionKey.Length == KEY_SIZE && rotationCounter < ROTATION && sequenceNumber < U32
    }

    ghost function State(): Link
      reads this, sessionKey
    {
      Link(sessionKey[..], rotationCounter, sequenceNumber)
    }

    constructor (key: seq<byte>)
      requires |key| == KEY_SIZE
      ensures Valid() && fresh(sessionKey) && State() == Fresh(key)
    {
      sessionKey := new byte[KEY_SIZE](i requires 0 <= i < KEY_SIZE => key[i]);
      rotationCounter, sequenceNumber := 0, 0;
      new;
      assert sessionKey[..] == key;
    }

    method Encrypt(plain: seq<byte>, capacity: nat) returns (r: Option<seq<byte>>)
      requires Valid()
      modifies this, sessionKey
      ensures Valid()
      ensures r == if capacity < |plain| + TAG_SIZE then None else Some(Seal(old(sessionKey[..]), plain))
      ensures State() == if r.None? then old(State()) else AfterSeal(old(State()))
    {
      if capacity < |plain| + TAG_SIZE {
        return None;
      }
      var frame := SealInto(sessionKey, plain);
      sequenceNumber := (sequenceNumber + 1) % U32;
      rotationCounter := rotationCounter + 1;
      if rotationCounter >= ROTATION {
        RotateKey();
        rotationCounter := 0;
      }
      r := Some(frame);
    }

    method RotateKey()
      requires sessionKey.Length == KEY_SIZE
      modifies sessionKey
      ensures sessionKey[..] == Rotated(old(sessionKey[..]))
    {
      for i := 0 to KEY_SIZE
        invariant forall m :: 0 <= m < i ==> sessionKey[m] == old(sessionKey[m]) + 1
        invariant forall m :: i <= m < KEY_SIZE ==> sessionKey[m] == old(sessionKey[m])
      {
        sessionKey[i] := sessionKey[i] + 1;
      }
    }

    method Decrypt(frame: seq<byte>, capacity: nat) returns (r: Option<seq<byte>>)
      requires Valid()
      modifies this`sequenceNumber
      ensures Valid()
      ensures r == if |frame| >= TAG_SIZE && capacity < |frame| - TAG_SIZE then None else Open(sessionKey[..], frame)
      ensures sequenceNumber == if r.None? then old(sequenceNumber) else (old(sequenceNumber) + 1) % U32
    {
      r := OpenFrom(sessionKey, frame, capacity);
      if r.Some? {
        sequenceNumber := (sequenceNumber + 1) % U32;
      }
    }
  }

  /** The server's encryption context: the same frames, but the key is never written again. */
  class ServerCipher {
    const sessionKey: array<byte>
    var sequenceNumber: nat

    ghost predicate Valid()
      reads this
    {
      sessionKey.Length == KEY_SIZE && sequenceNumber < U32
    }

    constructor (key: seq<byte>)
      requires |key| == KEY_SIZE
      ensures Valid() && fresh(sessionKey) && sessionKey[..] == key && sequenceNumber == 0
    {
      sessionKey := new byte[KEY_SIZE](i requires 0 <= i < KEY_SIZE => key[i]);
      sequenceNumber := 0;
      new;
      assert sessionKey[..] == key;
    }

    method Encrypt(plain: seq<byte>, capacity: nat) returns (r: Option<seq<byte>>)
      requires Valid()
      modifies this`sequenceNumber
      ensures Valid()
      ensures r == if capacity < |plain| + TAG_SIZE then None else Some(Seal(sessionKey[..], plain))
      ensures sequenceNumber == if r.None? then old(sequenceNumber) else (old(sequenceNumber) + 1) % U32
    {
      if capacity < |plain| + TAG_SIZE {
        return None;
      }
      var frame := SealInto(sessionKey, plain);
      sequenceNumber := (sequenceNumber + 1) % U32;
      r := Some(frame);
    }

    method Decrypt(frame: seq<byte>, capacity: nat) returns (r: Option<seq<byte>>)
      requires Valid()
      modifies this`sequenceNumber
      ensures Valid()
      ensures r == if |frame| >= TAG_SIZE && capacity < |frame| - TAG_SIZE then None else Open(sessionKey[..], frame)
      ensures sequenceNumber == if r.None? then old(sequenceNumber) else (old(sequenceNumber) + 1) % U32
    {
      r := OpenFrom(sessionKey, frame, capacity);
      if r.Some? {
        sequenceNumber := (sequenceNumber + 1) % U32;
      }
    }
  }
}

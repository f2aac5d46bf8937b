/**
 The path of a key packet: hex text under a command prefix, through the link cipher, the server's line
 cleaning and command dispatch, the relay, and the receiving client's parser.  One frame per recv.
 */
module Wire {
  import opened Bytes
  import opened LinkCipher
  import opened KeyExchange
  import opened PeerTable
  import opened E2E

  const BUFFER_SIZE := 1024

  // ---------------------------------------------------------------- hex

  function HexDigit(n: byte): byte {
    if n < 10 then 0x30 + n else 0x57 + n
  }

  function HighDigit(b: byte): byte {
    HexDigit(b >> 4)
  }

  function LowDigit(b: byte): byte {
    HexDigit(b & 15)
  }

  function HexValue(c: byte): Option<byte> {
    if 0x30 <= c <= 0x39 then Some(c - 0x30)
    else if 0x61 <= c <= 0x66 then Some(c - 0x57)
    else if 0x41 <= c <= 0x46 then Some(c - 0x37)
    else None
  }

  function HexText(raw: seq<byte>): (r: seq<byte>)
    ensures |r| == 2 * |raw|
  {
    seq(2 * |raw|, i requires 0 <= i < 2 * |raw| =>
      if i % 2 == 0 then HighDigit(raw[i / 2]) else LowDigit(raw[i / 2]))
  }

  lemma HexDigitValue(b: byte)
    ensures HexValue(HighDigit(b)) == Some(b >> 4)
    ensures HexValue(LowDigit(b)) == Some(b & 15)
    ensures ((b >> 4) << 4) | (b & 15) == b
  {
  }

  /**
   `sscanf(text, "%02x", &v)`.  On two hex digits it yields their value; what it does with anything
   else (white space, signs, a lone digit) is left to the parameter.
   */
  function ScanByte(text: seq<byte>, irregular: seq<byte> -> Option<byte>): Option<byte> {
    if |text| >= 2 && HexValue(text[0]).Some? && HexValue(text[1]).Some? then
      Some((HexValue(text[0]).value << 4) | HexValue(text[1]).value)
    else irregular(text)
  }

  /** The first n bytes scanned from the text, None as soon as one fails. */
  function ScanBytes(text: seq<byte>, n: nat, irregular: seq<byte> -> Option<byte>): (r: Option<seq<byte>>)
    requires 2 * n <= |text|
    ensures r.Some? ==> |r.value| == n
  {
    if n == 0 then Some([])
    else
      var front := ScanBytes(text, n - 1, irregular);
      var last := ScanByte(text[2 * (n - 1)..], irregular);
      if front.None? || last.None? then None else Some(front.value + [last.value])
  }

  function ParsePacket(hex: seq<byte>, irregular: seq<byte> -> Option<byte>): Option<KeyPacket> {
    if |hex| != 2 * PACKET_SIZE then None
    else
      var raw := ScanBytes(hex, PACKET_SIZE, irregular);
      if raw.None? then None else Some(Deserialize(raw.value))
  }

  lemma ScanDigits(text: seq<byte>, b: byte, irregular: seq<byte> -> Option<byte>)
    requires |text| >= 2 && text[0] == HighDigit(b) && text[1] == LowDigit(b)
    ensures ScanByte(text, irregular) == Some(b)
  {
    HexDigitValue(b);
  }

  lemma ScanPair(raw: seq<byte>, i: nat, irregular: seq<byte> -> Option<byte>)
    requires i < |raw|
    ensures ScanByte(HexText(raw)[2 * i..], irregular) == Some(raw[i])
  {
    assert HexText(raw)[2 * i] == HighDigit(raw[i]) && HexText(raw)[2 * i + 1] == LowDigit(raw[i]);
    ScanDigits(HexText(raw)[2 * i..], raw[i], irregular);
  }

  lemma {:induction false} ScanHexText(raw: seq<byte>, n: nat, irregular: seq<byte> -> Option<byte>)
    requires n <= |raw|
    ensures ScanBytes(HexText(raw), n, irregular) == Some(raw[..n])
    decreases n
  {
    if n == 0 {
    } else {
      ScanHexText(raw, n - 1, irregular);
      ScanPair(raw, n - 1, irregular);
      assert raw[..n] == raw[..n - 1] + [raw[n - 1]];
    }
  }

  /** Printing and parsing a packet are inverse, whatever sscanf does elsewhere. */
  lemma {:induction false} ParsePrinted(p: KeyPacket, irregular: seq<byte> -> Option<byte>)
    requires Sized(p)
    ensures ParsePacket(HexText(Serialize(p)), irregular) == Some(p)
  {
    var raw := Serialize(p);
    ScanHexText(raw, PACKET_SIZE, irregular);
    assert raw[..PACKET_SIZE] == raw;
    DeserializeSerialize(p);
  }

  // ---------------------------------------------------------------- commands

  datatype Command = Create | Join | Leave | Rooms | Nick | Users | Help | Quit | KeyExchange | Message | Unknown

  const CREATE: seq<byte> := [0x2f, 0x63, 0x72, 0x65, 0x61, 0x74, 0x65, 0x20]        // "/create "
  const JOIN: seq<byte> := [0x2f, 0x6a, 0x6f, 0x69, 0x6e, 0x20]                      // "/join "
  const LEAVE: seq<byte> := [0x2f, 0x6c, 0x65, 0x61, 0x76, 0x65]                     // "/leave"
  const ROOMS: seq<byte> := [0x2f, 0x72, 0x6f, 0x6f, 0x6d, 0x73]                     // "/rooms"
  const NICK: seq<byte> := [0x2f, 0x6e, 0x69, 0x63, 0x6b, 0x20]                      // "/nick "
  const USERS: seq<byte> := [0x2f, 0x75, 0x73, 0x65, 0x72, 0x73]                     // "/users"
  const LIST: seq<byte> := [0x2f, 0x6c, 0x69, 0x73, 0x74]                            // "/list"
  const HELP: seq<byte> := [0x2f, 0x68, 0x65, 0x6c, 0x70]                            // "/help"
  const QUIT: seq<byte> := [0x2f, 0x71, 0x75, 0x69, 0x74]                            // "/quit"
  const KEYEXCHANGE: seq<byte> :=                                                    // "/keyexchange:"
    [0x2f, 0x6b, 0x65, 0x79, 0x65, 0x78, 0x63, 0x68, 0x61, 0x6e, 0x67, 0x65, 0x3a]
  const E2EMSG: seq<byte> := [0x2f, 0x65, 0x32, 0x65, 0x6d, 0x73, 0x67, 0x3a]        // "/e2emsg:"

  /** The server's chain of prefix tests, first match wins. */
  function Dispatch(line: seq<byte>): Command {
    if CREATE <= line then Create
    else if JOIN <= line then Join
    else if LEAVE <= line then Leave
    else if ROOMS <= line then Rooms
    else if NICK <= line then Nick
    else if USERS <= line || LIST <= line then Users
    else if HELP <= line then Help
    else if QUIT <= line then Quit
    else if KEYEXCHANGE <= line then KeyExchange
    else if E2EMSG <= line then Message
    else Unknown
  }

  predicate LineEnd(c: byte) {
    c == 0x0a || c == 0x0d
  }

  /** strcspn(s, "\n\r"). */
  function LineLength(s: seq<byte>): (n: nat)
    ensures n <= |s|
    ensures forall i :: 0 <= i < n ==> !LineEnd(s[i])
    ensures n < |s| ==> LineEnd(s[n])
  {
    if s == [] || LineEnd(s[0]) then 0 else 1 + LineLength(s[1..])
  }

  /** The received plaintext as a C string, at most 1023 bytes, cut at the first line end. */
  function Cleaned(plain: seq<byte>): (line: seq<byte>)
    ensures line <= plain && |line| < BUFFER_SIZE
  {
    var text := plain[..StrLen(plain)];
    var copy := if |text| >= BUFFER_SIZE then text[..BUFFER_SIZE - 1] else text;
    copy[..LineLength(copy)]
  }

  /** A line with no NUL or line end that fits the buffer is left alone. */
  lemma CleanedKeeps(line: seq<byte>)
    requires |line| < BUFFER_SIZE && forall i :: 0 <= i < |line| ==> line[i] != 0 && !LineEnd(line[i])
    ensures Cleaned(line) == line
  {
    StrLenIsFirstNul(line, |line|);
    assert line[..|line|] == line;
  }

  /** What the server relays for a key-exchange frame; None for every other outcome. */
  function Relayed(key: seq<byte>, frame: seq<byte>): Option<seq<byte>>
    requires |key| == KEY_SIZE
  {
    var plain := Open(key, frame);
    if plain.None? || |plain.value| > BUFFER_SIZE - 1 then None
    else
      var line := Cleaned(plain.value);
      if Dispatch(line) == KeyExchange then Some(line) else None
  }

  /** The receiving client's table after one recv: only well-formed key-exchange lines change it. */
  function Received(me: UserId, ps: seq<Peer>, bytes: seq<byte>, irregular: seq<byte> -> Option<byte>): seq<Peer>
    requires |bytes| < BUFFER_SIZE
  {
    var text := bytes[..StrLen(bytes)];
    if KEYEXCHANGE <= text then
      var p := ParsePacket(text[|KEYEXCHANGE|..], irregular);
      if p.None? then ps else Learn(me, ps, p.value)
    else ps
  }

  // ---------------------------------------------------------------- the whole pipeline

  function KeyLine(k: KeyPair): (line: seq<byte>)
    requires Honest(k)
    ensures |line| == |KEYEXCHANGE| + 2 * PACKET_SIZE
  {
    KEYEXCHANGE + HexText(Serialize(PacketOf(k)))
  }

  lemma HexDigitIsText(b: byte)
    ensures HighDigit(b) != 0 && !LineEnd(HighDigit(b))
    ensures LowDigit(b) != 0 && !LineEnd(LowDigit(b))
  {
  }

  lemma KeyLineIsText(k: KeyPair)
    requires Honest(k)
    ensures forall i :: 0 <= i < |KeyLine(k)| ==> KeyLine(k)[i] != 0 && !LineEnd(KeyLine(k)[i])
  {
    var raw := Serialize(PacketOf(k));
    forall i | 0 <= i < |HexText(raw)| ensures HexText(raw)[i] != 0 && !LineEnd(HexText(raw)[i]) {
      HexDigitIsText(raw[i / 2]);
    }
  }

  lemma KeyLineDispatches(line: seq<byte>)
    requires KEYEXCHANGE <= line
    ensures Dispatch(line) == KeyExchange
  {
    assert line[1] == 0x6b;
  }

  /** The server relays the sender's line untouched exactly when the link is in phase. */
  lemma {:induction false} RelayedExactlyInPhase(k: KeyPair, key: seq<byte>, n: nat)
    requires Honest(k) && |key| == KEY_SIZE
    ensures Relayed(key, KthFrame(key, n, KeyLine(k))) == Some(KeyLine(k)) <==> InPhase(n)
  {
    var line := KeyLine(k);
    ServerRecoversExactlyInPhase(key, n, line);
    var plain := Open(key, KthFrame(key, n, line));
    if plain == Some(line) {
      KeyLineIsText(k);
      CleanedKeeps(line);
      KeyLineDispatches(line);
    } else if plain.Some? {
      FrameKeepsLength(key, n, line);
      assert Cleaned(plain.value) <= plain.value;
    }
  }

  lemma FrameKeepsLength(key: seq<byte>, n: nat, line: seq<byte>)
    requires |key| == KEY_SIZE && Open(key, KthFrame(key, n, line)).Some?
    ensures |Open(key, KthFrame(key, n, line)).value| == |line|
  {
    AfterSealsClosedForm(key, n);
  }

  lemma ReceivedLine(k: KeyPair, me: UserId, ps: seq<Peer>, irregular: seq<byte> -> Option<byte>)
    requires Honest(k) && k.userId != me
    ensures Received(me, ps, KeyLine(k), irregular) == Insert(ps, PacketOf(k))
  {
    var line, p := KeyLine(k), PacketOf(k);
    KeyLineIsText(k);
    StrLenIsFirstNul(line, |line|);
    assert line[..|line|] == line;
    assert line[|KEYEXCHANGE|..] == HexText(Serialize(p));
    ParsePrinted(p, irregular);
  }

  /**
   From a connected sender whose link is in phase, the packet reaches the receiver unchanged and
   verified, and the receiver's lookup of the sender's id then gives exactly the sender's key.
   */
  lemma {:induction false} KeyReachesReceiver(
    k: KeyPair, key: seq<byte>, n: nat, me: UserId, ps: seq<Peer>, irregular: seq<byte> -> Option<byte>)
    requires Honest(k) && |key| == KEY_SIZE && InPhase(n)
    requires Distinct(ps) && |ps| < MAX_PEERS && k.userId != me
    ensures Relayed(key, KthFrame(key, n, KeyLine(k))) == Some(KeyLine(k))
    ensures Received(me, ps, KeyLine(k), irregular) == Insert(ps, PacketOf(k))
    ensures Lookup(Received(me, ps, KeyLine(k), irregular), k.userId)
         == Some(Peer(k.publicKey, k.userId, StrField(k.nickname, NICKNAME_SIZE), true))
  {
    RelayedExactlyInPhase(k, key, n);
    ReceivedLine(k, me, ps, irregular);
    var p := PacketOf(k);
    var qs, i := Insert(ps, p), IndexOf(ps, k.userId);
    InsertRefines(ps, p);
    assert qs[i] == PeerOf(p);
    IndexOfMember(qs, i);
    LookupIsFirstActive(qs, k.userId);
    StrFieldIdempotent(k.nickname, NICKNAME_SIZE);
  }

  // ---------------------------------------------------------------- the loops

  method PrintHex(raw: seq<byte>) returns (text: array<byte>)
    ensures text[..] == HexText(raw)
  {
    text := new byte[2 * |raw|];
    for i := 0 to |raw|
      invariant forall m :: 0 <= m < 2 * i ==> text[m] == HexText(raw)[m]
    {
      text[2 * i] := HighDigit(raw[i]);
      text[2 * i + 1] := LowDigit(raw[i]);
    }
  }

  method ParseKeyExchange(hex: seq<byte>, irregular: seq<byte> -> Option<byte>) returns (r: Option<KeyPacket>)
    ensures r == ParsePacket(hex, irregular)
  {
    if |hex| != 2 * PACKET_SIZE {
      return None;
    }
    var raw: seq<byte> := [];
    for i := 0 to PACKET_SIZE
      invariant ScanBytes(hex, i, irregular) == Some(raw)
    {
      var b := ScanByte(hex[2 * i..], irregular);
      if b.None? {
        ScanFailureStays(hex, i + 1, PACKET_SIZE, irregular);
        return None;
      }
      raw := raw + [b.value];
    }
    r := Some(Deserialize(raw));
  }

  lemma {:induction false} ScanFailureStays(text: seq<byte>, m: nat, n: nat, irregular: seq<byte> -> Option<byte>)
    requires m <= n && 2 * n <= |text| && ScanBytes(text, m, irregular) == None
    ensures ScanBytes(text, n, irregular) == None
    decreases n - m
  {
    if m == n {
    } else {
      ScanFailureStays(text, m, n - 1, irregular);
    }
  }

  method CleanLine(plain: seq<byte>) returns (line: seq<byte>)
    ensures line == Cleaned(plain)
  {
    var copy := plain[..StrLen(plain)];
    if |copy| >= BUFFER_SIZE {
      copy := copy[..BUFFER_SIZE - 1];
    }
    var n := 0;
    while n < |copy| && !LineEnd(copy[n])
      invariant 0 <= n <= |copy|
      invariant LineLength(copy) == n + LineLength(copy[n..])
    {
      assert copy[n..][1..] == copy[n + 1..];
      n := n + 1;
    }
    line := copy[..n];
  }
}

/** The three-way handshake of client and server, with 32-bit wrap-around, and the two sides composed. */
module Handshake {
  import opened Bytes

  const NICKNAME_SIZE := 32

  datatype Kind = Syn | SynAck | Ack | Other(code: nat)

  datatype Packet = Packet(kind: Kind, seqNum: nat, ackNum: nat, nickname: seq<byte>)

  datatype Phase = Idle | SynReceived | Established | Failed

  /** uint32_t addition of one. */
  function Succ(n: nat): nat {
    (n + 1) % U32
  }

  const SERVER: seq<byte> := [0x53, 0x45, 0x52, 0x56, 0x45, 0x52]  // "SERVER"

  function SynPacket(mine: nat, nick: seq<byte>): Packet {
    Packet(Syn, mine, 0, StrField(nick, NICKNAME_SIZE))
  }

  function SynAckPacket(mine: nat, theirs: nat): Packet {
    Packet(SynAck, mine, Succ(theirs), StrField(SERVER, NICKNAME_SIZE))
  }

  function AckPacket(mine: nat, theirs: nat, nick: seq<byte>): Packet {
    Packet(Ack, Succ(mine), Succ(theirs), StrField(nick, NICKNAME_SIZE))
  }

  /** The 32-byte field holds the name: its first 31 bytes at most, then NULs. */
  predicate HoldsName(field: seq<byte>, name: seq<byte>) {
    && |field| == NICKNAME_SIZE
    && forall i :: 0 <= i < NICKNAME_SIZE ==>
         field[i] == if i < StrLen(name) && i < NICKNAME_SIZE - 1 then name[i] else 0
  }

  lemma FieldHoldsName(name: seq<byte>)
    ensures HoldsName(StrField(name, NICKNAME_SIZE), name)
  {
    forall i | 0 <= i < NICKNAME_SIZE
      ensures StrField(name, NICKNAME_SIZE)[i] == if i < StrLen(name) && i < NICKNAME_SIZE - 1 then name[i] else 0
    {
      StrFieldByte(name, NICKNAME_SIZE, i);
    }
  }

  /** A SYN-ACK with the server's own number and name, acknowledging the client's number plus one. */
  predicate AnswersSyn(p: Packet, mine: nat, theirs: nat) {
    p.kind == SynAck && p.seqNum == mine && p.ackNum == (theirs + 1) % U32 && HoldsName(p.nickname, SERVER)
  }

  lemma SynAckAnswers(mine: nat, theirs: nat)
    ensures AnswersSyn(SynAckPacket(mine, theirs), mine, theirs)
  {
    FieldHoldsName(SERVER);
  }

  predicate AcceptsSyn(p: Packet) {
    p.kind == Syn
  }

  predicate AcceptsSynAck(mine: nat, p: Packet) {
    p.kind == SynAck && p.ackNum == Succ(mine)
  }

  predicate AcceptsAck(mine: nat, p: Packet) {
    p.kind == Ack && p.ackNum == Succ(mine)
  }

  /** The nickname kept after a SYN: the packet's if it is nonempty and terminated, else the old one. */
  function NicknameAfter(oldNick: seq<byte>, p: Packet): seq<byte> {
    if 0 < StrLen(p.nickname) < NICKNAME_SIZE then StrField(p.nickname, NICKNAME_SIZE) else oldNick
  }

  /** The old nickname is kept for an empty or unterminated one; otherwise the packet's is taken up to its NUL. */
  lemma {:induction false} NicknameTakenExactly(oldNick: seq<byte>, p: Packet)
    requires |p.nickname| == NICKNAME_SIZE
    ensures p.nickname[0] == 0 || 0 !in p.nickname ==> NicknameAfter(oldNick, p) == oldNick
    ensures p.nickname[0] != 0 && 0 in p.nickname ==> HoldsName(NicknameAfter(oldNick, p), p.nickname)
  {
    FieldHoldsName(p.nickname);
    var n := StrLen(p.nickname);
    assert p.nickname[..NICKNAME_SIZE] == p.nickname;
    assert n < NICKNAME_SIZE ==> p.nickname[n] in p.nickname;
  }

  // ---------------------------------------------------------------- the two procedures in place

  class ServerSession {
    var phase: Phase
    var nickname: seq<byte>
    var sequenceNumber: nat

    constructor (fallback: seq<byte>)
      ensures phase == Idle && nickname == fallback && sequenceNumber == 0
    {
      phase, nickname, sequenceNumber := Idle, fallback, 0;
    }

    /** The two receives and the send are inputs; None and false are their failures. */
    method Perform(syn: Option<Packet>, mine: nat, sendOk: bool, ack: Option<Packet>)
      returns (ok: bool, sent: Option<Packet>)
      modifies this
      ensures ok <==> syn.Some? && AcceptsSyn(syn.value) && sendOk && ack.Some? && AcceptsAck(mine, ack.value)
      ensures phase == if ok then Established else Failed
      ensures sequenceNumber == if ok then mine else old(sequenceNumber)
      ensures nickname == if syn.Some? && AcceptsSyn(syn.value) then NicknameAfter(old(nickname), syn.value)
                          else old(nickname)
      ensures sent == if syn.Some? && AcceptsSyn(syn.value) then Some(SynAckPacket(mine, syn.value.seqNum)) else None
      ensures sent.Some? ==> syn.Some? && AnswersSyn(sent.value, mine, syn.value.seqNum)
    {
      ok, sent := false, None;
      phase := Idle;
      if syn.None? {
        phase := Failed;
        return;
      }
      if syn.value.kind != Syn {
        phase := Failed;
        return;
      }
      var theirs := syn.value.seqNum;
      phase := SynReceived;
      if StrLen(syn.value.nickname) > 0 && StrLen(syn.value.nickname) < NICKNAME_SIZE {
        nickname := StrField(syn.value.nickname, NICKNAME_SIZE);
      }
      sent := Some(Packet(SynAck, mine, Succ(theirs), StrField(SERVER, NICKNAME_SIZE)));
      SynAckAnswers(mine, theirs);
      if !sendOk {
        phase := Failed;
        return;
      }
      if ack.None? {
        phase := Failed;
        return;
      }
      if ack.value.kind != Ack {
        phase := Failed;
        return;
      }
      if ack.value.ackNum != Succ(mine) {
        phase := Failed;
        return;
      }
      sequenceNumber := mine;
      phase := Established;
      ok := true;
    }
  }

  method PerformClientSide(nick: seq<byte>, mine: nat, sendSyn: bool, reply: Option<Packet>, sendAck: bool)
    returns (ok: bool, sent: seq<Packet>)
    ensures ok <==> sendSyn && reply.Some? && AcceptsSynAck(mine, reply.value) && sendAck
    ensures |sent| >= 1 && sent[0].kind == Syn && sent[0].seqNum == mine && sent[0].ackNum == 0
    ensures HoldsName(sent[0].nickname, nick)
    ensures |sent| == 2 ==>
              && reply.Some? && sent[1].kind == Ack && sent[1].seqNum == (mine + 1) % U32
              && sent[1].ackNum == (reply.value.seqNum + 1) % U32 && HoldsName(sent[1].nickname, nick)
    ensures sent == [SynPacket(mine, nick)] +
                    (if sendSyn && reply.Some? && AcceptsSynAck(mine, reply.value)
                     then [AckPacket(mine, reply.value.seqNum, nick)] else [])
  {
    FieldHoldsName(nick);
    sent := [Packet(Syn, mine, 0, StrField(nick, NICKNAME_SIZE))];
    if !sendSyn || reply.None? {
      return false, sent;
    }
    if reply.value.kind != SynAck {
      return false, sent;
    }
    if reply.value.ackNum != Succ(mine) {
      return false, sent;
    }
    sent := sent + [Packet(Ack, Succ(mine), Succ(reply.value.seqNum), StrField(nick, NICKNAME_SIZE))];
    ok := sendAck;
  }

  // ---------------------------------------------------------------- the composed protocol

  /** A frame on the wire; chat text follows the handshake on the same connection. */
  datatype Frame = Shake(packet: Packet) | Text(bytes: seq<byte>)

  datatype ClientPc = CStart | CWaiting | CDone(serverSeq: nat) | CFailed

  datatype ServerPc = SWaitSyn | SWaitAck(clientSeq: nat) | SDone(clientSeq: nat) | SFailed

  /** The inputs of one connection. */
  datatype Config = Config(nick: seq<byte>, clientSeq: nat, serverSeq: nat, fallback: seq<byte>)

  predicate Proper(g: Config) {
    g.clientSeq < U32 && g.serverSeq < U32
  }

  /** Each direction is a reliable FIFO channel: everything ever sent, and how much has been read. */
  datatype State = State(
    client: ClientPc, server: ServerPc, nickname: seq<byte>,
    up: seq<Frame>, upRead: nat, down: seq<Frame>, downRead: nat, handled: seq<seq<byte>>)

  function Start(g: Config): State {
    State(CStart, SWaitSyn, g.fallback, [], 0, [], 0, [])
  }

  datatype Action = ClientSyn | ServerOnSyn | ClientOnSynAck | ServerOnAck | SendText(bytes: seq<byte>) | HandleText
                  | ClientGivesUp | ServerGivesUp

  predicate Enabled(s: State, a: Action) {
    match a
    case ClientSyn => s.client.CStart?
    case ServerOnSyn => s.server.SWaitSyn? && s.upRead < |s.up|
    case ClientOnSynAck => s.client.CWaiting? && s.downRead < |s.down|
    case ServerOnAck => s.server.SWaitAck? && s.upRead < |s.up|
    case SendText(_) => s.client.CDone?
    case HandleText => s.server.SDone? && s.upRead < |s.up| && s.up[s.upRead].Text?
    case ClientGivesUp => s.client.CStart? || s.client.CWaiting?
    case ServerGivesUp => s.server.SWaitSyn? || s.server.SWaitAck?
  }

  function Next(g: Config, s: State, a: Action): State
    requires Enabled(s, a)
  {
    match a
    case ClientSyn => s.(client := CWaiting, up := s.up + [Shake(SynPacket(g.clientSeq, g.nick))])
    case ServerOnSyn =>
      var f, r := s.up[s.upRead], s.(upRead := s.upRead + 1);
      if f.Shake? && AcceptsSyn(f.packet) then
        r.(server := SWaitAck(f.packet.seqNum), nickname := NicknameAfter(s.nickname, f.packet),
        down := s.down + [Shake(SynAckPacket(g.serverSeq, f.packet.seqNum))])
      else r.(server := SFailed)
    case ClientOnSynAck =>
      var f, r := s.down[s.downRead], s.(downRead := s.downRead + 1);
      if f.Shake? && AcceptsSynAck(g.clientSeq, f.packet) then
        r.(client := CDone(f.packet.seqNum), up := s.up + [Shake(AckPacket(g.clientSeq, f.packet.seqNum, g.nick))])
      else r.(client := CFailed)
    case ServerOnAck =>
      var f, r := s.up[s.upRead], s.(upRead := s.upRead + 1);
      if f.Shake? && AcceptsAck(g.serverSeq, f.packet) then r.(server := SDone(s.server.clientSeq))
      else r.(server := SFailed)
    case SendText(bytes) => s.(up := s.up + [Text(bytes)])
    case HandleText => s.(upRead := s.upRead + 1, handled := s.handled + [s.up[s.upRead].bytes])
    case ClientGivesUp => s.(client := CFailed)
    case ServerGivesUp => s.(server := SFailed)
  }

  /** The agreed nickname: the client's first 31 bytes, unless it is empty. */
  function AgreedNickname(g: Config): seq<byte> {
    NicknameAfter(g.fallback, SynPacket(g.clientSeq, g.nick))
  }

  predicate OnlyText(frames: seq<Frame>) {
    forall i :: 0 <= i < |frames| ==> frames[i].Text?
  }

  ghost predicate UpOk(g: Config, s: State) {
    var syn, ack := Shake(SynPacket(g.clientSeq, g.nick)), Shake(AckPacket(g.clientSeq, g.serverSeq, g.nick));
    match s.client
    case CStart => s.up == []
    case CWaiting => s.up == [syn]
    case CDone(q) => q == g.serverSeq && |s.up| >= 2 && s.up[..2] == [syn, ack] && OnlyText(s.up[2..])
    case CFailed => s.up == [] || s.up == [syn]
  }

  ghost predicate DownOk(g: Config, s: State) {
    var synAck := Shake(SynAckPacket(g.serverSeq, g.clientSeq));
    match s.server
    case SWaitSyn => s.down == [] && s.upRead == 0 && s.nickname == g.fallback && s.handled == []
    case SWaitAck(q) =>
      && q == g.clientSeq && s.down == [synAck] && s.upRead == 1
      && s.nickname == AgreedNickname(g) && s.handled == []
    case SDone(q) =>
      && q == g.clientSeq && s.down == [synAck] && s.nickname == AgreedNickname(g)
      && s.client.CDone? && 2 <= s.upRead <= |s.up|
      && |s.handled| == s.upRead - 2 && forall i :: 0 <= i < |s.handled| ==> s.up[i + 2] == Text(s.handled[i])
    case SFailed => (s.down == [] || s.down == [synAck]) && s.handled == []
  }

  ghost predicate Inv(g: Config, s: State) {
    && Proper(g)
    && UpOk(g, s)
    && DownOk(g, s)
    && (s.client.CStart? || s.client.CWaiting? ==> s.downRead == 0)
    && (s.client.CDone? ==> s.down != [])
  }

  lemma ClientSynKeepsInv(g: Config, s: State)
    requires Inv(g, s) && Enabled(s, ClientSyn)
    ensures Inv(g, Next(g, s, ClientSyn))
  {
  }

  lemma ClientOnSynAckKeepsInv(g: Config, s: State)
    requires Inv(g, s) && Enabled(s, ClientOnSynAck)
    ensures Inv(g, Next(g, s, ClientOnSynAck))
  {
    var u := Next(g, s, ClientOnSynAck);
    assert u.client.CDone? ==> u.up[..2] == u.up && u.up[2..] == [];
  }

  lemma SendTextKeepsInv(g: Config, s: State, bytes: seq<byte>)
    requires Inv(g, s) && Enabled(s, SendText(bytes))
    ensures Inv(g, Next(g, s, SendText(bytes)))
  {
    var u := Next(g, s, SendText(bytes));
    assert u.up[..2] == s.up[..2];
    assert u.up[2..] == s.up[2..] + [Text(bytes)];
  }

  lemma FirstFrames(g: Config, s: State)
    requires Inv(g, s) && s.client.CDone?
    ensures s.up[0] == Shake(SynPacket(g.clientSeq, g.nick))
    ensures s.up[1] == Shake(AckPacket(g.clientSeq, g.serverSeq, g.nick))
  {
    assert s.up[..2][0] == s.up[0] && s.up[..2][1] == s.up[1];
  }

  lemma ServerOnSynKeepsInv(g: Config, s: State)
    requires Inv(g, s) && Enabled(s, ServerOnSyn)
    ensures Inv(g, Next(g, s, ServerOnSyn))
  {
    if s.client.CDone? {
      FirstFrames(g, s);
    }
  }

  lemma ServerOnAckKeepsInv(g: Config, s: State)
    requires Inv(g, s) && Enabled(s, ServerOnAck)
    ensures Inv(g, Next(g, s, ServerOnAck))
  {
    if s.client.CDone? {
      FirstFrames(g, s);
    }
  }

  lemma HandleTextKeepsInv(g: Config, s: State)
    requires Inv(g, s) && Enabled(s, HandleText)
    ensures Inv(g, Next(g, s, HandleText))
  {
  }

  lemma GivingUpKeepsInv(g: Config, s: State, a: Action)
    requires Inv(g, s) && Enabled(s, a) && Faulty(a)
    ensures Inv(g, Next(g, s, a))
  {
  }

  lemma StepKeepsInv(g: Config, s: State, a: Action)
    requires Inv(g, s) && Enabled(s, a)
    ensures Inv(g, Next(g, s, a))
  {
    match a
    case ClientSyn => ClientSynKeepsInv(g, s);
    case ServerOnSyn => ServerOnSynKeepsInv(g, s);
    case ClientOnSynAck => ClientOnSynAckKeepsInv(g, s);
    case ServerOnAck => ServerOnAckKeepsInv(g, s);
    case SendText(bytes) => SendTextKeepsInv(g, s, bytes);
    case HandleText => HandleTextKeepsInv(g, s);
    case _ => GivingUpKeepsInv(g, s, a);
  }

  ghost function Exec(g: Config, s: State, actions: seq<Action>): Option<State>
    decreases |actions|
  {
    if actions == [] then Some(s)
    else if !Enabled(s, actions[0]) then None
    else Exec(g, Next(g, s, actions[0]), actions[1..])
  }

  lemma {:induction false} EveryRunKeepsInv(g: Config, s: State, actions: seq<Action>)
    requires Inv(g, s) && Exec(g, s, actions).Some?
    ensures Inv(g, Exec(g, s, actions).value)
    decreases |actions|
  {
    if actions == [] {
    } else {
      StepKeepsInv(g, s, actions[0]);
      EveryRunKeepsInv(g, Next(g, s, actions[0]), actions[1..]);
    }
  }

  /**
   In every run, time-outs and failed sends included: once the server is established the client has
   sent its ACK, each side holds the other's sequence number, the nickname is the client's up to 31
   bytes (the server's default for an empty one), and what was handled is a prefix of the texts sent
   after the ACK.  Before that, nothing has been handled.
   */
  lemma {:induction false} EstablishedMeansAgreed(g: Config, actions: seq<Action>)
    requires Proper(g) && Exec(g, Start(g), actions).Some?
    ensures var s := Exec(g, Start(g), actions).value;
            && (s.server.SDone? ==>
                && s.server == SDone(g.clientSeq) && s.client == CDone(g.serverSeq)
                && |s.up| >= 2 && s.up[1] == Shake(AckPacket(g.clientSeq, g.serverSeq, g.nick))
                && (StrLen(g.nick) == 0 ==> s.nickname == g.fallback)
                && (StrLen(g.nick) > 0 ==> s.nickname == StrField(g.nick, NICKNAME_SIZE))
                && |s.handled| <= |s.up| - 2 && forall i :: 0 <= i < |s.handled| ==> s.up[i + 2] == Text(s.handled[i]))
            && (!s.server.SDone? ==> s.handled == [])
  {
    EveryRunKeepsInv(g, Start(g), actions);
    var s := Exec(g, Start(g), actions).value;
    if s.server.SDone? {
      assert s.up[..2][1] == s.up[1];
      StrLenOfField(g.nick, NICKNAME_SIZE);
      StrFieldIdempotent(g.nick, NICKNAME_SIZE);
    }
  }

  /**
   Field by field: each side counts on from its own number and acknowledges the other's plus one, modulo
   2^32, and both names are on the wire.
   */
  predicate ThreePackets(g: Config, syn: Packet, synAck: Packet, ack: Packet) {
    && syn.kind == Syn && syn.seqNum == g.clientSeq && syn.ackNum == 0 && HoldsName(syn.nickname, g.nick)
    && AnswersSyn(synAck, g.serverSeq, syn.seqNum)
    && ack.kind == Ack && ack.seqNum == (syn.seqNum + 1) % U32 && ack.ackNum == (synAck.seqNum + 1) % U32
    && HoldsName(ack.nickname, g.nick)
  }

  lemma PacketsAre(g: Config)
    ensures ThreePackets(g, SynPacket(g.clientSeq, g.nick), SynAckPacket(g.serverSeq, g.clientSeq),
                         AckPacket(g.clientSeq, g.serverSeq, g.nick))
  {
    FieldHoldsName(g.nick);
    SynAckAnswers(g.serverSeq, g.clientSeq);
  }

  lemma EstablishedExchange(g: Config, s: State)
    requires Inv(g, s) && s.server.SDone?
    ensures |s.up| >= 2 && |s.down| == 1
    ensures s.up[0] == Shake(SynPacket(g.clientSeq, g.nick))
    ensures s.up[1] == Shake(AckPacket(g.clientSeq, g.serverSeq, g.nick))
    ensures s.down[0] == Shake(SynAckPacket(g.serverSeq, g.clientSeq))
  {
    FirstFrames(g, s);
  }

  /** The three packets of every run with an established server. */
  lemma {:induction false} EstablishedFrames(g: Config, actions: seq<Action>)
    requires Proper(g) && Exec(g, Start(g), actions).Some? && Exec(g, Start(g), actions).value.server.SDone?
    ensures var s := Exec(g, Start(g), actions).value;
            && |s.up| >= 2 && s.up[0].Shake? && s.up[1].Shake? && |s.down| == 1 && s.down[0].Shake?
            && ThreePackets(g, s.up[0].packet, s.down[0].packet, s.up[1].packet)
  {
    EveryRunKeepsInv(g, Start(g), actions);
    EstablishedExchange(g, Exec(g, Start(g), actions).value);
    PacketsAre(g);
  }

  // ---------------------------------------------------------------- loss-free runs

  predicate Faulty(a: Action) {
    a.ClientGivesUp? || a.ServerGivesUp?
  }

  predicate HandshakeStep(a: Action) {
    a.ClientSyn? || a.ServerOnSyn? || a.ClientOnSynAck? || a.ServerOnAck?
  }

  /** Handshake steps still to come. */
  function Remaining(s: State): nat {
    match (s.client, s.server)
    case (CStart, _) => 4
    case (CWaiting, SWaitSyn) => 3
    case (CWaiting, _) => 2
    case (_, SDone(_)) => 0
    case _ => 1
  }

  ghost predicate Healthy(g: Config, s: State) {
    && Inv(g, s) && !s.client.CFailed? && !s.server.SFailed?
    && (s.client.CStart? ==> s.server.SWaitSyn?)
    && (s.client.CDone? ==> !s.server.SWaitSyn?)
  }

  lemma HealthyStep(g: Config, s: State, a: Action)
    requires Healthy(g, s) && Enabled(s, a) && !Faulty(a)
    ensures Healthy(g, Next(g, s, a))
    ensures Remaining(Next(g, s, a)) == Remaining(s) - (if HandshakeStep(a) then 1 else 0)
  {
    StepKeepsInv(g, s, a);
    if s.client.CDone? {
      FirstFrames(g, s);
    }
  }

  /** While the handshake is unfinished, exactly the next of its steps is possible. */
  lemma HealthyProgress(g: Config, s: State)
    requires Healthy(g, s) && Remaining(s) > 0
    ensures var next := match Remaining(s)
                        case 4 => ClientSyn case 3 => ServerOnSyn case 2 => ClientOnSynAck case _ => ServerOnAck;
            Enabled(s, next)
  {
  }

  function HandshakeSteps(actions: seq<Action>): nat {
    if actions == [] then 0 else (if HandshakeStep(actions[0]) then 1 else 0) + HandshakeSteps(actions[1..])
  }

  lemma {:induction false} HealthyRun(g: Config, s: State, actions: seq<Action>)
    requires Healthy(g, s) && Exec(g, s, actions).Some? && forall i :: 0 <= i < |actions| ==> !Faulty(actions[i])
    ensures Healthy(g, Exec(g, s, actions).value)
    ensures Remaining(Exec(g, s, actions).value) + HandshakeSteps(actions) == Remaining(s)
    decreases |actions|
  {
    if actions == [] {
    } else {
      HealthyStep(g, s, actions[0]);
      HealthyRun(g, Next(g, s, actions[0]), actions[1..]);
    }
  }

  function Packets(frames: seq<Frame>): nat {
    if frames == [] then 0 else Packets(frames[..|frames| - 1]) + (if frames[|frames| - 1].Shake? then 1 else 0)
  }

  lemma {:induction false} PacketsThenText(frames: seq<Frame>)
    requires |frames| >= 2 && frames[0].Shake? && frames[1].Shake? && OnlyText(frames[2..])
    ensures Packets(frames) == 2
  {
    var n := |frames| - 1;
    if n == 1 {
      assert frames[..1][..0] == [];
    } else {
      assert frames[n] == frames[2..][n - 2];
      assert forall i :: 2 <= i < n ==> frames[..n][i] == frames[2..][i - 2];
      PacketsThenText(frames[..n]);
    }
  }

  /**
   A run without time-outs or failed sends never fails; it takes at most four handshake steps, can
   always go on until both sides are done, and has then exchanged exactly three packets.
   */
  lemma {:induction false} LossFreeRunCompletes(g: Config, actions: seq<Action>)
    requires Proper(g) && Exec(g, Start(g), actions).Some? && forall i :: 0 <= i < |actions| ==> !Faulty(actions[i])
    ensures var s := Exec(g, Start(g), actions).value;
            && !s.client.CFailed? && !s.server.SFailed? && HandshakeSteps(actions) <= 4
            && (HandshakeSteps(actions) < 4 ==> exists a :: HandshakeStep(a) && Enabled(s, a))
            && (HandshakeSteps(actions) == 4 ==>
                && s.client == CDone(g.serverSeq) && s.server == SDone(g.clientSeq)
                && Packets(s.up) + Packets(s.down) == 3)
  {
    HealthyRun(g, Start(g), actions);
    var s := Exec(g, Start(g), actions).value;
    if HandshakeSteps(actions) < 4 {
      HealthyProgress(g, s);
    } else {
      assert s.up[..2][0] == s.up[0] && s.up[..2][1] == s.up[1];
      PacketsThenText(s.up);
      assert s.down[..0] == [];
    }
  }
}

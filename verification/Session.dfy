/** Packets of a session: Send, OnRead and FetchIOBuf of src/common/session.cpp as values. */
module Session {
  import opened Bytes
  import opened Framing
  import opened SerialStructs

  const PAYLOAD_HEAD_SIZE: nat := 11
  const VER_PROTOCOL: Byte := 1
  const PAYLOAD_PROTECT_STATIC_VCODE: Byte := 9
  const INT_MAX: nat := 0x7FFF_FFFF
  const HDC_SOCKETPAIR_SIZE: nat := 153600

  datatype Message = Message(channelId: U32, command: U16, data: seq<Byte>)

  // ---- Send ------------------------------------------------------------------------

  function ProtectOf(m: Message): PayloadProtect {
    PayloadProtect(m.channelId, m.command, 0, PAYLOAD_PROTECT_STATIC_VCODE)
  }

  // struct PayloadHead, packed, in network byte order.
  function EncodePayloadHead(headSize: U16, dataSize: U32): (s: seq<Byte>)
    ensures |s| == PAYLOAD_HEAD_SIZE
  {
    ['H' as int, 'W' as int, 0, 0, VER_PROTOCOL] + Be16(headSize) + Be32(dataSize)
  }

  // Send's sizes are ints.
  predicate Sendable(m: Message) {
    PAYLOAD_HEAD_SIZE + |EncodeProtect(ProtectOf(m))| + |m.data| <= INT_MAX
  }

  function Packet(m: Message): (s: seq<Byte>)
    requires Sendable(m)
    ensures |s| > PAYLOAD_HEAD_SIZE
  {
    var protect := EncodeProtect(ProtectOf(m));
    EncodePayloadHead(|protect|, |m.data|) + protect + m.data
  }

  // ---- OnRead -------------------------------------------------------------------------

  datatype ReadResult = Refused | Incomplete | Complete(message: Message, size: nat)

  function HeadSizeOf(s: seq<Byte>): U16
    requires |s| >= PAYLOAD_HEAD_SIZE
  {
    FromBe16(s[5..7])
  }

  function DataSizeOf(s: seq<Byte>): U32
    requires |s| >= PAYLOAD_HEAD_SIZE
  {
    FromBe32(s[7..11])
  }

  function DecodeProtect(s: seq<Byte>): PayloadProtect {
    ParseProtect(PayloadProtect(0, 0, 0, 0), s)
  }

  // A head whose sizes do not add up to a positive int is refused.
  function OnRead(s: seq<Byte>): (r: ReadResult)
    requires |s| > PAYLOAD_HEAD_SIZE
    ensures r.Complete? ==> PAYLOAD_HEAD_SIZE < r.size <= |s|
  {
    var headSize, dataSize := HeadSizeOf(s), DataSizeOf(s);
    var toBeRead := headSize + dataSize;
    if s[0] != 'H' as int || s[1] != 'W' as int then Refused
    else if toBeRead == 0 || toBeRead > INT_MAX then Refused
    else if |s| - PAYLOAD_HEAD_SIZE < toBeRead then Incomplete
    else
      var body := s[PAYLOAD_HEAD_SIZE..PAYLOAD_HEAD_SIZE + toBeRead];
      var protect := DecodeProtect(body[..headSize]);
      if protect.vCode != PAYLOAD_PROTECT_STATIC_VCODE then Refused
      else Complete(Message(protect.channelId, protect.commandFlag % 0x1_0000, body[headSize..]), PAYLOAD_HEAD_SIZE + toBeRead)
  }

  // ---- FetchIOBuf ------------------------------------------------------------------------

  function Fetch(s: seq<Byte>): (r: Fetched<Message>)
    ensures |r.rest| <= |s|
    decreases |s|
  {
    if |s| <= PAYLOAD_HEAD_SIZE then Fetched([], s, true)
    else
      match OnRead(s)
      case Refused => Fetched([], [], false)
      case Incomplete => Fetched([], s, true)
      case Complete(m, size) => Fetch(s[size..]).After([m])
  }

  // ---- a packet, whole or cut -----------------------------------------------------------------

  lemma ProtectComesBack(p: PayloadProtect)
    ensures DecodeProtect(EncodeProtect(p)) == p
  {
    hide ParseProtect, EncodeProtect;
    PayloadProtectComesBack(PayloadProtect(0, 0, 0, 0), p, p, 0);
  }

  // The head of a packet and what is behind it.
  lemma HeadOfPacket(m: Message, s: seq<Byte>)
    requires Sendable(m) && |s| > PAYLOAD_HEAD_SIZE
    requires s[..PAYLOAD_HEAD_SIZE] == EncodePayloadHead(|EncodeProtect(ProtectOf(m))|, |m.data|)
    ensures s[0] == 'H' as int && s[1] == 'W' as int
    ensures HeadSizeOf(s) == |EncodeProtect(ProtectOf(m))| && DataSizeOf(s) == |m.data|
  {
    hide EncodeProtect;
    var head := EncodePayloadHead(|EncodeProtect(ProtectOf(m))|, |m.data|);
    assert s[5..7] == head[5..7] == Be16(|EncodeProtect(ProtectOf(m))|);
    assert s[7..11] == head[7..11] == Be32(|m.data|);
    assert s[0] == head[0] && s[1] == head[1];
    BigEndian(|m.data|);
  }

  lemma WholePacket(m: Message, rest: seq<Byte>)
    requires Sendable(m)
    ensures OnRead(Packet(m) + rest) == Complete(m, |Packet(m)|)
    ensures (Packet(m) + rest)[|Packet(m)|..] == rest
  {
    hide EncodeProtect, DecodeProtect, HeadSizeOf, DataSizeOf;
    var s, protect := Packet(m) + rest, EncodeProtect(ProtectOf(m));
    assert s[..PAYLOAD_HEAD_SIZE] == EncodePayloadHead(|protect|, |m.data|);
    HeadOfPacket(m, s);
    ProtectComesBack(ProtectOf(m));
    var body := s[PAYLOAD_HEAD_SIZE..PAYLOAD_HEAD_SIZE + |protect| + |m.data|];
    assert body[..|protect|] == protect && body[|protect|..] == m.data;
  }

  lemma CutPacket(m: Message, part: seq<Byte>)
    requires Sendable(m) && part < Packet(m)
    ensures Fetch(part) == Fetched([], part, true)
  {
    hide EncodeProtect, DecodeProtect, HeadSizeOf, DataSizeOf;
    if |part| > PAYLOAD_HEAD_SIZE {
      assert part[..PAYLOAD_HEAD_SIZE] == Packet(m)[..PAYLOAD_HEAD_SIZE];
      HeadOfPacket(m, part);
    }
  }

  // ---- the stream of many packets ---------------------------------------------------------------

  predicate AllSendable(ms: seq<Message>) {
    forall i | 0 <= i < |ms| :: Sendable(ms[i])
  }

  function Packets(ms: seq<Message>): (ss: seq<seq<Byte>>)
    requires AllSendable(ms)
    ensures |ss| == |ms| && NoneEmpty(ss)
    ensures forall i | 0 <= i < |ms| :: ss[i] == Packet(ms[i])
  {
    seq(|ms|, i requires 0 <= i < |ms| => Packet(ms[i]))
  }

  lemma PacketsAreTaken(ms: seq<Message>)
    requires AllSendable(ms)
    ensures Takes(Fetch, ms, Packets(ms))
  {
    hide OnRead, Packet;
    var ss := Packets(ms);
    forall i, rest | 0 <= i < |ss| ensures Fetch(ss[i] + rest) == Fetch(rest).After([ms[i]]) {
      WholePacket(ms[i], rest);
    }
    forall i, part | 0 <= i < |ss| && part < ss[i] ensures Fetch(part) == Fetched([], part, true) {
      CutPacket(ms[i], part);
    }
  }

  predicate AllFit(ms: seq<Message>)
    requires AllSendable(ms)
  {
    forall i | 0 <= i < |ms| :: |Packet(ms[i])| <= HDC_SOCKETPAIR_SIZE
  }

  // Whatever pieces the packets of a session are read in: the commands complete so far are dispatched,
  // in order, each once, as by one big read; the buffer holds exactly the bytes of the packet not yet
  // complete; and if every packet fits the buffer there is room to read on.
  lemma AnyCutOfTheSession(ms: seq<Message>, pieces: seq<seq<Byte>>)
    requires AllSendable(ms) && Flatten(pieces) <= Flatten(Packets(ms))
    ensures var r, k := FetchAll(Fetch, [], pieces), Whole(Packets(ms), |Flatten(pieces)|);
            && r == Fetch(Flatten(pieces))
            && r.ok && r.log == ms[..k]
            && Flatten(Packets(ms)[..k]) + r.rest == Flatten(pieces)
            && (r.rest == [] || (k < |ms| && r.rest < Packet(ms[k])))
            && (AllFit(ms) ==> |r.rest| < HDC_SOCKETPAIR_SIZE)
  {
    hide Fetch, Whole, Left, Packet, Flatten, Takes;
    PacketsAreTaken(ms);
    AnyPieces(Fetch, ms, Packets(ms), pieces);
  }

  // ---- packets that make no sense --------------------------------------------------------------------

  // When a buffer is refused, and when it waits: everything else is handed on.
  lemma RefusedIff(s: seq<Byte>)
    requires |s| > 11
    ensures var head, sum := FromBe16(s[5..7]), FromBe16(s[5..7]) + FromBe32(s[7..11]);
            && (OnRead(s).Refused? <==>
                 || s[0] != 0x48 || s[1] != 0x57 || sum == 0 || sum > 0x7FFF_FFFF
                 || (sum <= |s| - 11 && DecodeProtect(s[11..11 + head]).vCode != 9))
            && (OnRead(s).Incomplete? <==> s[0] == 0x48 && s[1] == 0x57 && |s| - 11 < sum <= 0x7FFF_FFFF)
  {
    hide DecodeProtect, FromBe16, FromBe32;
    var headSize, sum := HeadSizeOf(s), HeadSizeOf(s) + DataSizeOf(s);
    if sum <= |s| - PAYLOAD_HEAD_SIZE {
      assert s[PAYLOAD_HEAD_SIZE..PAYLOAD_HEAD_SIZE + sum][..headSize] == s[11..11 + headSize];
    }
  }

  // Packets in front of one that is refused are dispatched, and the rest of the buffer is dropped.
  lemma {:induction false} BadPacketEnds(ms: seq<Message>, bad: seq<Byte>)
    requires AllSendable(ms) && |bad| > PAYLOAD_HEAD_SIZE && OnRead(bad).Refused?
    ensures Fetch(Flatten(Packets(ms)) + bad) == Fetched(ms, [], false)
    decreases |ms|
  {
    hide OnRead, Packet;
    if ms == [] {
      assert [] + bad == bad;
    } else {
      assert Packets(ms)[1..] == Packets(ms[1..]);
      BadPacketEnds(ms[1..], bad);
      WholePacket(ms[0], Flatten(Packets(ms[1..])) + bad);
      Assoc(Packet(ms[0]), Flatten(Packets(ms[1..])), bad);
      assert [ms[0]] + ms[1..] == ms;
    }
  }
}

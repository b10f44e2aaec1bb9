/** The formats of the wire byte by byte, without the functions that write and read them. */
module WireLayout {
  import opened Bytes
  import opened UartHead
  import opened SerialWire
  import opened SerialSchema
  import opened SerialFresh
  import opened SerialStructs
  import opened FileTask
  import Session
  import Channel

  // ---- integers ------------------------------------------------------------------------------

  // Four bytes, the low one first.
  function Four(n: U32): seq<Byte> {
    [n % 256, n / 256 % 256, n / 65536 % 256, n / 16777216]
  }

  // Halves of halves are the four bytes.
  lemma Quarters(n: U32)
    ensures n % 0x1_0000 % 256 == n % 256 && n % 0x1_0000 / 256 == n / 256 % 256
    ensures n / 0x1_0000 % 256 == n / 65536 % 256 && n / 0x1_0000 / 256 == n / 16777216
  {
    var low: int, high: int := n % 0x1_0000, n / 0x1_0000;
    assert n == 65536 * high + low;
    Shifted(256 * high, low % 256, low / 256);
    assert n == 256 * (256 * high + low / 256) + low % 256;
    assert n / 256 == 256 * high + low / 256;
    assert (256 * high + low / 256) % 256 == low / 256;
    assert n == 16777216 * (high / 256) + (65536 * (high % 256) + low);
  }

  lemma Shifted(k: nat, r: nat, q: nat)
    requires r < 256
    ensures (256 * (k + q) + r) % 256 == r && (256 * (k + q) + r) / 256 == k + q
  {
  }

  lemma Le32Bytes(n: U32)
    ensures Le32(n) == Four(n)
  {
    Quarters(n);
  }

  lemma Be32Bytes(n: U32)
    ensures Be32(n) == [n / 16777216, n / 65536 % 256, n / 256 % 256, n % 256]
  {
    Quarters(n);
  }

  // ---- packages of the serial line -----------------------------------------------------------------

  // The 24 bytes of the packed head: magic word, option, session, size, index, sum of the data, sum of
  // the head, each with its low byte first.
  lemma HeadBytes(h: Head)
    ensures EncodeHead(h) ==
            [h.flag0, h.flag1, h.option % 256, h.option / 256] + Four(h.sessionId) + Four(h.dataSize) + Four(h.packageIndex)
            + Four(h.dataCheckSum) + Four(h.headCheckSum)
  {
    hide Le32, Four;
    Le32Bytes(h.sessionId);
    Le32Bytes(h.dataSize);
    Le32Bytes(h.packageIndex);
    Le32Bytes(h.dataCheckSum);
    Le32Bytes(h.headCheckSum);
  }

  // ---- packets of a session ------------------------------------------------------------------------

  // Magic word, two bytes reserved, version 1, both sizes with their high byte first; then the records of
  // the protection (channel, command, no checksum, the static code 9) and the data.
  lemma PacketBytes(m: Session.Message)
    requires Session.Sendable(m)
    ensures var protect := Flatten([NumberRecord(1, m.channelId), NumberRecord(2, m.command), NumberRecord(3, 0), NumberRecord(4, 9)]);
            && |protect| < 256
            && Session.Packet(m) ==
               [0x48, 0x57, 0, 0, 1, 0, |protect|]
               + [|m.data| / 16777216, |m.data| / 65536 % 256, |m.data| / 256 % 256, |m.data| % 256] + protect + m.data
  {
    hide EncodeProtect, Flatten, NumberRecord, Be32;
    ProtectOnWire(Session.ProtectOf(m));
    Be32Bytes(|m.data|);
  }

  // ---- buffers of a channel --------------------------------------------------------------------------

  lemma ChannelBytes(m: seq<Byte>)
    requires Channel.Sendable(m)
    ensures Channel.Prefixed(m) == [|m| / 16777216, |m| / 65536 % 256, |m| / 256 % 256, |m| % 256] + m
  {
    Be32Bytes(|m|);
  }

  // ---- DATA commands ----------------------------------------------------------------------------------

  // 64 bytes of prefix: where the data goes, how it is compressed, its size twice, zeros; then the data.
  lemma DataBytes(compressType: Byte, index: U64, data: seq<Byte>)
    requires |data| < TWO32 && index <= INT_MAX
    ensures var head := Flatten([NumberRecord(1, index), NumberRecord(2, compressType), NumberRecord(3, |data|), NumberRecord(4, |data|)]);
            |head| < 64 && DataPayload(compressType, index, data) == head + Zeros(64 - |head|) + data
  {
    hide EncodePayload, Flatten, NumberRecord, Zeros;
    var p := TransferPayload(index, compressType, |data|, |data|);
    PayloadOnWire(p);
    PrefixHasRoom(p);
  }

  // ---- the examples of the Protocol Buffers encoding guide --------------------------------------------

  lemma VarintExamples()
    ensures Varint(1) == [0x01] && Varint(150) == [0x96, 0x01] && Varint(300) == [0xAC, 0x02]
    ensures Zigzag(0) == 0 && Zigzag(-1) == 1 && Zigzag(1) == 2 && Zigzag(-2) == 3
    ensures Zigzag(0x7FFF_FFFF) == 0xFFFF_FFFE && Zigzag(-0x8000_0000) == 0xFFFF_FFFF
  {
  }

  lemma PackedExample()
    ensures Varint(3) == [0x03] && Varint(270) == [0x8E, 0x02] && Varint(86942) == [0x9E, 0xA7, 0x05]
    ensures EncodeNums(I32T, [3, 270, 86942]) == [0x03, 0x8E, 0x02, 0x9E, 0xA7, 0x05]
  {
    hide EncodeNums;
    assert Varint(270) == [0x8E] + Varint(2);
    assert Varint(679) == [0xA7] + Varint(5);
    assert Varint(86942) == [0x9E] + Varint(679);
    assert EncodeNums(I32T, []) == [] by { NoNums(); }
    PackedCons(3, [270, 86942]);
    PackedCons(270, [86942]);
    PackedCons(86942, []);
    assert [3] + [270, 86942] == [3, 270, 86942] && [270] + [86942] == [270, 86942] && [86942] + [] == [86942];
  }

  lemma NoNums()
    ensures EncodeNums(I32T, []) == []
  {
  }

  lemma PlainNumber(n: nat)
    requires n < 0x8000_0000
    ensures EncodeScalar(I32T, n) == Varint(n)
  {
    hide Varint;
    SmallModulo(n, TWO32);
  }

  lemma PackedCons(n: nat, ns: seq<int>)
    requires n < 0x8000_0000 && forall i | 0 <= i < |ns| :: I32T.InRange(ns[i])
    ensures EncodeNums(I32T, [n] + ns) == Varint(n) + EncodeNums(I32T, ns)
  {
    hide Varint, EncodeScalar;
    PlainNumber(n);
    assert ([n] + ns)[1..] == ns;
  }

  // Field 1 as the number 150, field 2 as the string "testing", field 4 as the packed numbers 3, 270
  // and 86942.
  lemma FieldExamples()
    ensures EncodeField(Field(1, One(I32T)), Num(150)) == [0x08, 0x96, 0x01]
    ensures EncodeField(Field(2, Str), Text([0x74, 0x65, 0x73, 0x74, 0x69, 0x6e, 0x67])) ==
            [0x12, 0x07, 0x74, 0x65, 0x73, 0x74, 0x69, 0x6e, 0x67]
    ensures EncodeField(Field(4, Packed(I32T)), Nums([3, 270, 86942])) == [0x22, 0x06, 0x03, 0x8E, 0x02, 0x9E, 0xA7, 0x05]
  {
    hide EncodeNums, EncodeScalar, TagBytes;
    PlainNumber(150);
    SmallTag(1, 0);
    SmallTag(2, 2);
    SmallTag(4, 2);
    PackedExample();
    assert Varint(150) == [0x96] + Varint(1);
  }
}

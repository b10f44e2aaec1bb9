/** OnRead of src/common/session.cpp with its machine integers, on any bytes, against OnRead on unbounded ones. */
module SessionWidth {
  import opened Bytes
  import opened SerialStructs
  import opened Session

  // A uint32_t kept in an int.
  function Int32(n: U32): (i: int)
    ensures -TWO31 <= i < TWO31 && i % TWO32 == n
  {
    if n < TWO31 then n else n - TWO32
  }

  // What OnRead does: refuse, wait for more, or hand on a command with its data size and take `size` bytes.
  datatype Answer = Refuses | Waits | HandsOn(channelId: U32, command: U16, dataSize: int, size: nat)

  function SizeSum(s: seq<Byte>): nat
    requires |s| > PAYLOAD_HEAD_SIZE
  {
    HeadSizeOf(s) + DataSizeOf(s)
  }

  predicate Flagged(s: seq<Byte>)
    requires |s| > PAYLOAD_HEAD_SIZE
  {
    s[0] == 'H' as int && s[1] == 'W' as int
  }

  // The protection DecryptPayload reads, wherever the received bytes end.
  function ProtectAt(s: seq<Byte>, behind: seq<Byte>): PayloadProtect
    requires |s| > PAYLOAD_HEAD_SIZE && |behind| >= 0xFFFF
  {
    DecodeProtect((s + behind)[PAYLOAD_HEAD_SIZE..PAYLOAD_HEAD_SIZE + HeadSizeOf(s)])
  }

  // `behind` is what the memory holds behind the bytes received.
  function OnReadInts(s: seq<Byte>, behind: seq<Byte>): Answer
    requires |s| > PAYLOAD_HEAD_SIZE && |behind| >= 0xFFFF
  {
    var tobeReadLen := Int32((DataSizeOf(s) + HeadSizeOf(s)) % TWO32);
    if !Flagged(s) then Refuses
    else if tobeReadLen <= 0 || tobeReadLen > INT_MAX then Refuses
    else if |s| - PAYLOAD_HEAD_SIZE < tobeReadLen then Waits
    else
      var protect := ProtectAt(s, behind);
      if protect.vCode != PAYLOAD_PROTECT_STATIC_VCODE then Refuses
      else HandsOn(protect.channelId, protect.commandFlag % 0x1_0000, Int32(DataSizeOf(s)), PAYLOAD_HEAD_SIZE + tobeReadLen)
  }

  predicate Agree(a: Answer, r: ReadResult) {
    match r
    case Refused => a.Refuses?
    case Incomplete => a.Waits?
    case Complete(m, size) => a == HandsOn(m.channelId, m.command, |m.data|, size)
  }

  // Sizes that do not pass 2^32 together are added as they are.
  lemma SmallSizesAgree(s: seq<Byte>, behind: seq<Byte>)
    requires |s| > PAYLOAD_HEAD_SIZE && |behind| >= 0xFFFF && SizeSum(s) < TWO32
    ensures Agree(OnReadInts(s, behind), OnRead(s))
  {
    hide DecodeProtect, HeadSizeOf, DataSizeOf;
    var headSize, sum := HeadSizeOf(s), SizeSum(s);
    if sum <= |s| - PAYLOAD_HEAD_SIZE {
      var body := s[PAYLOAD_HEAD_SIZE..PAYLOAD_HEAD_SIZE + sum];
      assert body[..headSize] == (s + behind)[PAYLOAD_HEAD_SIZE..PAYLOAD_HEAD_SIZE + headSize];
    }
  }

  // On any bytes the code does what the description on unbounded numbers does exactly if the sizes in the
  // head do not pass 2^32 together, or the packet is refused for another reason: no flag, a sum of 2^32
  // itself, or as many bytes as the wrapped sum asks for and a wrong version code.
  lemma WidthsAgreeIff(s: seq<Byte>, behind: seq<Byte>)
    requires |s| > PAYLOAD_HEAD_SIZE && |behind| >= 0xFFFF
    ensures Agree(OnReadInts(s, behind), OnRead(s)) <==>
            || !Flagged(s)
            || SizeSum(s) <= TWO32
            || (SizeSum(s) - TWO32 <= |s| - PAYLOAD_HEAD_SIZE &&
                ProtectAt(s, behind).vCode != PAYLOAD_PROTECT_STATIC_VCODE)
  {
    hide DecodeProtect, HeadSizeOf, DataSizeOf, ProtectAt;
    if SizeSum(s) < TWO32 {
      SmallSizesAgree(s, behind);
    }
  }

  // A command handed on has the data size that the bytes taken leave for it, negative exactly if the
  // sizes passed 2^32.
  lemma DataSizeIsWhatIsLeft(s: seq<Byte>, behind: seq<Byte>)
    requires |s| > PAYLOAD_HEAD_SIZE && |behind| >= 0xFFFF && OnReadInts(s, behind).HandsOn?
    ensures var a := OnReadInts(s, behind);
            a.dataSize == a.size - PAYLOAD_HEAD_SIZE - HeadSizeOf(s) && (a.dataSize < 0 <==> SizeSum(s) >= TWO32)
  {
    hide ProtectAt, HeadSizeOf, DataSizeOf;
  }

  // Whatever Send made is read as described, whole or cut.
  lemma SentIsRead(m: Message, s: seq<Byte>, behind: seq<Byte>)
    requires Sendable(m) && |s| > PAYLOAD_HEAD_SIZE && |behind| >= 0xFFFF
    requires s[..PAYLOAD_HEAD_SIZE] == Packet(m)[..PAYLOAD_HEAD_SIZE]
    ensures Agree(OnReadInts(s, behind), OnRead(s))
  {
    hide EncodeProtect, DecodeProtect, HeadSizeOf, DataSizeOf, OnReadInts, OnRead, Agree;
    HeadOfPacket(m, s);
    WidthsAgreeIff(s, behind);
  }

  // One such head: 3 and 2^32 - 1 add up to 2, and the code waits for a second byte.
  lemma WrappedSizesWait(behind: seq<Byte>)
    requires |behind| >= 0xFFFF
    ensures var s := EncodePayloadHead(3, 0xFFFF_FFFF) + [0];
            OnReadInts(s, behind).Waits? && OnRead(s).Refused?
  {
    hide DecodeProtect;
    var s := EncodePayloadHead(3, 0xFFFF_FFFF) + [0];
    assert s[5..7] == Be16(3) && s[7..11] == Be32(0xFFFF_FFFF);
    BigEndian(0xFFFF_FFFF);
  }
}

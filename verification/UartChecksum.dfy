/** What the two checksums of a package are good for. */
module UartChecksum {
  import opened Bytes
  import opened UartHead
  import opened UartReceive
  import opened UartParser

  lemma WordDiffers(s: seq<Byte>, i: nat, b: Byte)
    requires |s| == 4 && i < 4 && b != s[i]
    ensures FromLe32(s[i := b]) != FromLe32(s)
  {
    LittleEndianBack(s);
    LittleEndianBack(s[i := b]);
    assert s[i := b][i] != s[i];
  }

  // A damaged head, wherever the byte is, fails the flag or the head checksum.
  lemma DamagedHead(f: Frame, i: nat, b: Byte, rest: seq<Byte>)
    requires f.WellFormed() && i < HEAD_SIZE && b != f.Encode()[i]
    ensures var q := f.Encode()[i := b] + rest; !FlagOk(q) || !ValidateHead(q)
  {
    var p, q := f.Encode(), f.Encode()[i := b] + rest;
    assert p + rest == f.Encode() + rest && (p + rest)[..HEAD_SIZE] == EncodeHead(f.head);
    HeadOnBuffer(f, p + rest);
    assert q == (p + rest)[i := b];
    if 2 <= i < 20 {
      assert q[..20] == (p + rest)[..20][i := b];
      OneByteMovesSum((p + rest)[..20], i, b);
      assert q[20..24] == (p + rest)[20..24];
    } else if i >= 20 {
      assert q[..20] == (p + rest)[..20];
      assert q[20..24] == (p + rest)[20..24][i - 20 := b];
      WordDiffers((p + rest)[20..24], i - 20, b);
    }
  }

  // Damaged data leaves the head as it was and fails the data checksum.
  lemma DamagedData(f: Frame, i: nat, b: Byte, rest: seq<Byte>)
    requires f.WellFormed() && HEAD_SIZE <= i < |f.Encode()| && b != f.Encode()[i]
    ensures var q := f.Encode()[i := b] + rest;
            && q[..HEAD_SIZE] == EncodeHead(f.head)
            && DataSizeOf(q) == |f.payload| && !ValidateData(q)
  {
    var q := f.Encode()[i := b] + rest;
    assert q[..HEAD_SIZE] == EncodeHead(f.head);
    HeadOnBuffer(f, q);
    var k := i - HEAD_SIZE;
    assert q[24..24 + |f.payload|] == f.payload[k := b];
    OneByteMovesSum(f.payload, k, b);
    assert DecodeHead(q).dataCheckSum == f.head.dataCheckSum;
  }

  // The options in the head are looked at before the data checksum: only a package whose head is
  // intact can reset or free its session, damaged data or not.
  function AfterDamage(f: Frame, i: nat, ep: Endpoint): Endpoint {
    if i < HEAD_SIZE then ep
    else if f.head.HasOption(PKG_OPTION_RESET) then ep.(resets := ep.resets + [f.head.sessionId])
    else if f.head.HasOption(PKG_OPTION_FREE) then Restart(ep, f.head.sessionId)
    else ep
  }

  // Any package the parser would take, with exactly one byte not what was sent, is refused: nothing is
  // acknowledged, dispatched or settled, and the read buffer is emptied. All that is left is what the
  // options of an intact head ask for.
  lemma OneByteReplaced(f: Frame, i: nat, b: Byte, rest: seq<Byte>, ep: Endpoint)
    requires f.WellFormed() && i < |f.Encode()| && b != f.Encode()[i]
    ensures ValidateUartPacket(f.Encode()[i := b] + rest, ep) == Validation(AfterDamage(f, i, ep), false)
    ensures PackageProcess(f.Encode()[i := b] + rest, ep) == Parsed([], AfterDamage(f, i, ep), 0)
  {
    hide Sum32, EncodeHead, Restart;
    var q := f.Encode()[i := b] + rest;
    if i < HEAD_SIZE {
      DamagedHead(f, i, b, rest);
    } else {
      DamagedData(f, i, b, rest);
      HeadOnBuffer(f, q);
    }
  }

  // A package whose checksums were filled in is always taken.
  lemma CheckedPackageIsTaken(f: Frame, rest: seq<Byte>, ep: Endpoint)
    requires f.Sized() && HEAD_SIZE + |f.payload| <= MAX_UART_SIZE_IOBUF
    requires f.head.flag0 == FLAG0 && f.head.flag1 == FLAG1
    requires !f.head.HasOption(PKG_OPTION_RESET) && !f.head.HasOption(PKG_OPTION_FREE)
    ensures DataSizeOf(f.Encode()) == |f.payload|
    ensures PackageProcess(WithCheckSums(f.Encode()) + rest, ep) == PackageProcess(rest, Receive(ep, Checked(f)))
  {
    CheckedIsUpdateCheckSum(f);
    CheckedIsWellFormed(f);
    CompletePackage(Checked(f), rest, ep);
  }
}

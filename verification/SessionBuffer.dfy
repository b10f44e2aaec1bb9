/** The session's one read buffer, filled by reads and compacted in place by FetchIOBuf. */
module SessionBuffer {
  import opened Bytes
  import opened Framing
  import opened SerialStructs
  import opened Session

  const ERR_BUF_SIZE: int := -10000
  const ERR_IO_FAIL: int := -14000

  // HdcSessionBase::Send up to SendByProtocol: the packet in one allocated buffer.
  method Send(m: Message) returns (finalBuf: array<Byte>)
    requires Sendable(m)
    ensures fresh(finalBuf) && finalBuf[..] == Packet(m)
  {
    hide EncodeProtect;
    var s := EncodeProtect(ProtectOf(m));
    var head := EncodePayloadHead(|s|, |m.data|);
    finalBuf := new Byte[PAYLOAD_HEAD_SIZE + |s| + |m.data|](_ => 0);
    forall i | 0 <= i < PAYLOAD_HEAD_SIZE {
      finalBuf[i] := head[i];
    }
    forall i | 0 <= i < |s| {
      finalBuf[PAYLOAD_HEAD_SIZE + i] := s[i];
    }
    forall i | 0 <= i < |m.data| {
      finalBuf[PAYLOAD_HEAD_SIZE + |s| + i] := m.data[i];
    }
    assert finalBuf[..] == head + s + m.data;
  }

  class HdcSession {
    const ioBuf: array<Byte>
    var availTailIndex: nat
    // every command handed to FetchCommand, which is taken to succeed
    var log: seq<Message>

    constructor ()
      ensures fresh(ioBuf) && ioBuf.Length == HDC_SOCKETPAIR_SIZE && Valid() && Buffered() == [] && log == []
    {
      ioBuf := new Byte[HDC_SOCKETPAIR_SIZE](_ => 0);
      availTailIndex, log := 0, [];
    }

    predicate Valid()
      reads this
    {
      availTailIndex <= ioBuf.Length
    }

    function Buffered(): seq<Byte>
      reads this, ioBuf
      requires Valid()
    {
      ioBuf[..availTailIndex]
    }

    // AllocCallback offers the room behind what is buffered; the read puts its bytes there.
    method ReadInto(piece: seq<Byte>)
      requires Valid() && |piece| <= ioBuf.Length - availTailIndex
      modifies ioBuf
      ensures ioBuf[..availTailIndex + |piece|] == old(Buffered()) + piece
    {
      forall i | 0 <= i < |piece| {
        ioBuf[availTailIndex + i] := piece[i];
      }
    }

    // `read` more bytes are behind what was buffered.
    method FetchIOBuf(read: int) returns (ret: int)
      requires Valid() && read <= ioBuf.Length - availTailIndex
      modifies this, ioBuf
      ensures Valid()
      ensures read < 0 ==> ret == ERR_IO_FAIL && Buffered() == old(Buffered()) && log == old(log)
      ensures read >= 0 ==>
                var s := old(ioBuf[..availTailIndex + read]);
                && log == old(log) + Fetch(s).log
                && Buffered() == Fetch(s).rest
                && ret == (if Fetch(s).ok then |s| - |Fetch(s).rest| else ERR_BUF_SIZE)
    {
      hide OnRead, Fetch;
      if read < 0 {
        return ERR_IO_FAIL;
      }
      ghost var s := ioBuf[..availTailIndex + read];
      var indexBuf := 0;
      availTailIndex := availTailIndex + read;
      assert ioBuf[0..availTailIndex] == s;
      assert old(log) + Fetch(s).log == log + Fetch(s).log;
      while availTailIndex > PAYLOAD_HEAD_SIZE
        invariant 0 <= indexBuf && indexBuf + availTailIndex == |s|
        invariant ioBuf[..|s|] == s
        invariant Fetch(s).rest == Fetch(s[indexBuf..]).rest && Fetch(s).ok == Fetch(s[indexBuf..]).ok
        invariant old(log) + Fetch(s).log == log + Fetch(s[indexBuf..]).log
        decreases availTailIndex
        modifies `availTailIndex, `log
      {
        assert ioBuf[indexBuf..indexBuf + availTailIndex] == s[indexBuf..];
        FetchStep(s[indexBuf..]);
        var childRet := OnRead(ioBuf[indexBuf..indexBuf + availTailIndex]);
        if childRet.Incomplete? {
          break;
        }
        if childRet.Refused? {
          availTailIndex := 0;
          return ERR_BUF_SIZE;
        }
        assert s[indexBuf..][childRet.size..] == s[indexBuf + childRet.size..];
        Assoc(log, [childRet.message], Fetch(s[indexBuf + childRet.size..]).log);
        log := log + [childRet.message];
        availTailIndex := availTailIndex - childRet.size;
        indexBuf := indexBuf + childRet.size;
      }
      FetchShort(s[indexBuf..]);
      if indexBuf > 0 && availTailIndex > 0 {
        Compact(indexBuf, s);
      }
      assert ioBuf[..availTailIndex] == s[indexBuf..];
      return indexBuf;
    }

    // One read of a stream of packets, from byte n of it on.
    method ReadOnce(piece: seq<Byte>, ghost ms: seq<Message>, ghost n: nat)
      requires Valid() && |piece| <= ioBuf.Length - availTailIndex
      requires AllSendable(ms) && n + |piece| <= |Flatten(Packets(ms))|
      requires piece == Flatten(Packets(ms))[n..n + |piece|]
      requires AtByte(ms, n)
      modifies this, ioBuf
      ensures AtByte(ms, n + |piece|)
    {
      hide Packets, Whole, Left, Fetch, Flatten, AllSendable, Takes;
      ghost var ss := Packets(ms);
      PacketsAreTaken(ms);
      OneFetch(Fetch, ms, ss, n, piece);
      ReadInto(piece);
      var ret := FetchIOBuf(|piece|);
      JoinPrefix(ms, Whole(ss, n), Whole(ss, n + |piece|));
    }

    // The packets complete after n bytes are dispatched, the bytes of the next are buffered.
    ghost predicate AtByte(ms: seq<Message>, n: nat)
      requires AllSendable(ms) && n <= |Flatten(Packets(ms))|
      reads this, ioBuf
    {
      Valid() && Buffered() == Left(Packets(ms), n) && log == ms[..Whole(Packets(ms), n)]
    }

    lemma HasRoom(ms: seq<Message>, n: nat)
      requires AllSendable(ms) && AllFit(ms)
      requires n <= |Flatten(Packets(ms))| && AtByte(ms, n) && ioBuf.Length == HDC_SOCKETPAIR_SIZE
      ensures availTailIndex < ioBuf.Length
    {
      hide Packet, Whole, Left, Flatten;
      CutSplits(Packets(ms), n);
    }

    // Moves what is left to the front and clears the rest.
    method Compact(indexBuf: nat, ghost s: seq<Byte>)
      requires 0 < indexBuf && indexBuf + availTailIndex == |s| <= ioBuf.Length && ioBuf[..|s|] == s
      modifies ioBuf
      ensures ioBuf[..availTailIndex] == s[indexBuf..]
      ensures forall i | availTailIndex <= i < ioBuf.Length :: ioBuf[i] == 0
    {
      forall i | 0 <= i < availTailIndex {
        ioBuf[i] := ioBuf[indexBuf + i];
      }
      forall i | availTailIndex <= i < ioBuf.Length {
        ioBuf[i] := 0;
      }
    }
  }

  lemma FetchStep(s: seq<Byte>)
    requires |s| > PAYLOAD_HEAD_SIZE
    ensures var r := OnRead(s);
            Fetch(s) ==
            if r.Refused? then Fetched([], [], false)
            else if r.Incomplete? then Fetched([], s, true)
            else Fetch(s[r.size..]).After([r.message])
  {
    hide OnRead;
  }

  lemma FetchShort(s: seq<Byte>)
    ensures |s| <= PAYLOAD_HEAD_SIZE ==> Fetch(s) == Fetched([], s, true)
  {
  }

  // A session reading a stream of packets, each read as large as it likes up to the room there is: it
  // always gets at least one byte on, dispatches the packets complete so far, and holds the rest.
  method ReadStream(stream: seq<Byte>, wanted: seq<nat>, ghost ms: seq<Message>)
    returns (hSession: HdcSession, taken: nat)
    requires AllSendable(ms) && AllFit(ms)
    requires stream == Flatten(Packets(ms)) && forall i | 0 <= i < |wanted| :: wanted[i] > 0
    ensures Min(|stream|, |wanted|) <= taken <= |stream|
    ensures hSession.Valid()
    ensures hSession.log == ms[..Whole(Packets(ms), taken)]
    ensures Flatten(Packets(hSession.log)) + hSession.Buffered() == stream[..taken]
  {
    hide Packet, Packets, Whole, Left, Flatten, AllSendable, HdcSession.Buffered;
    hSession := new HdcSession();
    taken := 0;
    WholeOfNone(Packets(ms));
    for i := 0 to |wanted|
      invariant Min(|stream|, i) <= taken <= |stream|
      invariant fresh(hSession) && fresh(hSession.ioBuf) && hSession.ioBuf.Length == HDC_SOCKETPAIR_SIZE
      invariant hSession.AtByte(ms, taken)
    {
      hSession.HasRoom(ms, taken);
      var room := hSession.ioBuf.Length - hSession.availTailIndex;
      var k := Min(Min(wanted[i], room), |stream| - taken);
      hSession.ReadOnce(stream[taken..taken + k], ms, taken);
      taken := taken + k;
    }
    CutSplits(Packets(ms), taken);
    PacketsPrefix(ms, Whole(Packets(ms), taken));
  }

  lemma PacketsPrefix(ms: seq<Message>, k: nat)
    requires AllSendable(ms) && k <= |ms|
    ensures AllSendable(ms[..k]) && Packets(ms[..k]) == Packets(ms)[..k]
  {
  }
}

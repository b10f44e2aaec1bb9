/** The package parser: what PackageProcess does to well-formed, broken and cut byte streams. */
module UartParser {
  import opened Bytes
  import opened UartHead
  import opened UartReceive
  import opened Framing

  // ---- any bytes ---------------------------------------------------------------

  lemma ValidMeansFits(buf: seq<Byte>, ep: Endpoint)
    requires |buf| >= HEAD_SIZE
    ensures ValidateUartPacket(buf, ep).ok ==> PacketSize(buf) <= MAX_UART_SIZE_IOBUF
  {
  }

  // On any bytes the parser asks either for nothing, with at most one byte left, or for more bytes
  // than it holds, and never for more than the device buffer.
  lemma {:induction false} ParserAsksForMore(buf: seq<Byte>, ep: Endpoint)
    ensures var r := PackageProcess(buf, ep);
            (r.expected == 0 && |r.rest| <= 1) || |r.rest| < r.expected <= MAX_UART_SIZE_IOBUF
    decreases |buf|
  {
    hide ValidateUartPacket;
    if |buf| >= HEAD_SIZE {
      ValidMeansFits(buf, ep);
      var v, size := ValidateUartPacket(buf, ep), PacketSize(buf);
      if v.ok && size == HEAD_SIZE {
        ParserAsksForMore(buf[size..], v.ep);
      } else if v.ok && |buf| >= size {
        ParserAsksForMore(buf[size..], Dispatch(v.ep, DecodeHead(buf).packageIndex, buf[HEAD_SIZE..size]));
      }
    }
  }

  // On any bytes what the parser leaves is the end of the buffer.
  lemma {:induction false} ParserLeavesSuffix(buf: seq<Byte>, ep: Endpoint)
    ensures var r := PackageProcess(buf, ep);
            |r.rest| <= |buf| && r.rest == buf[|buf| - |r.rest|..]
    decreases |buf|
  {
    hide ValidateUartPacket;
    if |buf| >= HEAD_SIZE {
      var v, size := ValidateUartPacket(buf, ep), PacketSize(buf);
      if v.ok && |buf| >= size {
        var ep1 := if size == HEAD_SIZE then v.ep
                   else Dispatch(v.ep, DecodeHead(buf).packageIndex, buf[HEAD_SIZE..size]);
        ParserLeavesSuffix(buf[size..], ep1);
      }
    }
  }

  // ---- well-formed packages -----------------------------------------------------

  // Packages of the link protocol proper: no request to reset or free the session.
  predicate Plain(f: Frame) {
    f.WellFormed() && !f.head.HasOption(PKG_OPTION_RESET) && !f.head.HasOption(PKG_OPTION_FREE)
  }

  predicate AllPlain(fs: seq<Frame>) {
    forall i | 0 <= i < |fs| :: Plain(fs[i])
  }

  function Encodings(fs: seq<Frame>): (ms: seq<seq<Byte>>)
    ensures |ms| == |fs| && NoneEmpty(ms)
    ensures forall i | 0 <= i < |fs| :: ms[i] == fs[i].Encode()
  {
    seq(|fs|, i requires 0 <= i < |fs| => fs[i].Encode())
  }

  // The bytes of a row of packages.
  function Wire(fs: seq<Frame>): seq<Byte> {
    Flatten(Encodings(fs))
  }

  lemma HeadOnBuffer(f: Frame, buf: seq<Byte>)
    requires f.WellFormed()
    requires |buf| >= HEAD_SIZE && buf[..HEAD_SIZE] == EncodeHead(f.head)
    ensures DecodeHead(buf) == f.head && PacketSize(buf) == HEAD_SIZE + |f.payload|
    ensures FlagOk(buf) && ValidateHead(buf)
  {
    assert buf == EncodeHead(f.head) + buf[HEAD_SIZE..];
    HeadRoundTrip(f.head, buf[HEAD_SIZE..]);
    assert buf[..20] == EncodeHead(f.head)[..20];
  }

  // A complete package in front is consumed whole and has its effect once.
  lemma CompletePackage(f: Frame, rest: seq<Byte>, ep: Endpoint)
    requires Plain(f)
    ensures PackageProcess(f.Encode() + rest, ep) == PackageProcess(rest, Receive(ep, f))
  {
    var buf := f.Encode() + rest;
    assert buf[..HEAD_SIZE] == EncodeHead(f.head);
    HeadOnBuffer(f, buf);
    var size := PacketSize(buf);
    assert buf[HEAD_SIZE..size] == f.payload;
    assert FromLe32(buf[16..20]) == f.head.dataCheckSum;
    assert ValidateData(buf);
    assert ValidateUartPacket(buf, ep) == Validation(Settle(ep, f.head), true);
    assert buf[size..] == rest;
  }

  // The parser waits on a package that is not complete: no effect, no acknowledgement.
  lemma PartialPackage(f: Frame, part: seq<Byte>, ep: Endpoint)
    requires Plain(f) && part < f.Encode()
    ensures PackageProcess(part, ep) == Parsed(part, ep, PackageProcess(part, ep).expected)
  {
    if |part| >= HEAD_SIZE {
      assert part[..HEAD_SIZE] == f.Encode()[..HEAD_SIZE] == EncodeHead(f.head);
      HeadOnBuffer(f, part);
    }
  }

  lemma {:induction false} CompletePackages(fs: seq<Frame>, rest: seq<Byte>, ep: Endpoint)
    requires AllPlain(fs)
    ensures PackageProcess(Wire(fs) + rest, ep) == PackageProcess(rest, ReceiveAll(ep, fs))
    decreases |fs|
  {
    if fs == [] {
      assert [] + rest == rest;
    } else {
      assert Encodings(fs)[1..] == Encodings(fs[1..]);
      assert Wire(fs) + rest == fs[0].Encode() + (Wire(fs[1..]) + rest);
      CompletePackage(fs[0], Wire(fs[1..]) + rest, ep);
      CompletePackages(fs[1..], rest, Receive(ep, fs[0]));
    }
  }

  // What the parser asks for behind whole packages: nothing with at most one byte left, a head until it
  // has one, then the whole package.
  lemma WhatIsExpected(fs: seq<Frame>, f: Frame, part: seq<Byte>, ep: Endpoint)
    requires AllPlain(fs) && Plain(f) && part < f.Encode()
    ensures PackageProcess(Wire(fs) + part, ep).expected ==
            if |part| <= 1 then 0 else if |part| < 24 then 24 else 24 + |f.payload|
  {
    hide ReceiveAll, Wire, AllPlain;
    CompletePackages(fs, part, ep);
    if |part| >= HEAD_SIZE {
      assert part[..HEAD_SIZE] == f.Encode()[..HEAD_SIZE] == EncodeHead(f.head);
      HeadOnBuffer(f, part);
    }
  }

  // ---- cutting the stream --------------------------------------------------------

  lemma {:induction false} ReceiveAllAppend(ep: Endpoint, a: seq<Frame>, b: seq<Frame>)
    ensures ReceiveAll(ep, a + b) == ReceiveAll(ReceiveAll(ep, a), b)
    decreases |a|
  {
    if a == [] {
      assert a + b == b;
    } else {
      assert (a + b)[1..] == a[1..] + b;
      ReceiveAllAppend(Receive(ep, a[0]), a[1..], b);
    }
  }

  // The read loop: each piece read is appended to what the parser left.
  function ReadAll(buf: seq<Byte>, ep: Endpoint, pieces: seq<seq<Byte>>): Parsed
    decreases |pieces|
  {
    if pieces == [] then Parsed(buf, ep, 0)
    else
      var r := PackageProcess(buf + pieces[0], ep);
      if |pieces| == 1 then r else ReadAll(r.rest, r.ep, pieces[1..])
  }

  // The parser after n bytes of the stream of `fs`, read in whatever pieces, has acted on the
  // packages complete by then and holds the beginning of the next.
  predicate AtByte(fs: seq<Frame>, ep: Endpoint, n: nat, buf: seq<Byte>, now: Endpoint) {
    && n <= |Wire(fs)|
    && now == ReceiveAll(ep, fs[..Whole(Encodings(fs), n)])
    && buf == Left(Encodings(fs), n)
  }

  lemma ParseUpTo(fs: seq<Frame>, n: nat, j: nat, now: Endpoint)
    requires AllPlain(fs) && n <= |Wire(fs)| && j <= Whole(Encodings(fs), n)
    ensures var k := Whole(Encodings(fs), n);
            var r := PackageProcess(Wire(fs[j..k]) + Left(Encodings(fs), n), now);
            r.rest == Left(Encodings(fs), n) && r.ep == ReceiveAll(now, fs[j..k])
  {
    var k, part := Whole(Encodings(fs), n), Left(Encodings(fs), n);
    CutSplits(Encodings(fs), n);
    CompletePackages(fs[j..k], part, now);
    if part != [] {
      PartialPackage(fs[k], part, ReceiveAll(now, fs[j..k]));
    }
  }

  lemma WireSlice(fs: seq<Frame>, j: nat, k: nat)
    requires j <= k <= |fs|
    ensures Wire(fs[j..k]) == Flatten(Encodings(fs)[j..k])
  {
    assert Encodings(fs[j..k]) == Encodings(fs)[j..k];
  }

  // One more read, whatever its size, takes the parser from n bytes of the stream to n + |piece|.
  lemma OneRead(fs: seq<Frame>, ep: Endpoint, n: nat, buf: seq<Byte>, now: Endpoint, piece: seq<Byte>)
    requires AllPlain(fs) && AtByte(fs, ep, n, buf, now)
    requires n + |piece| <= |Wire(fs)| && piece == Wire(fs)[n..n + |piece|]
    ensures var r := PackageProcess(buf + piece, now); AtByte(fs, ep, n + |piece|, r.rest, r.ep)
  {
    hide PackageProcess, ReceiveAll, Whole, Left, Flatten, AllPlain, Encodings, Frame.Encode;
    var ms, m := Encodings(fs), n + |piece|;
    var j, k := Whole(ms, n), Whole(ms, m);
    ReadOn(ms, n, piece);
    WireSlice(fs, j, k);
    assert buf + piece == Wire(fs[j..k]) + Left(ms, m);
    ParseUpTo(fs, m, j, now);
    assert fs[..j] + fs[j..k] == fs[..k];
    ReceiveAllAppend(ep, fs[..j], fs[j..k]);
  }

  lemma {:induction false} ReadsAdvance(fs: seq<Frame>, ep: Endpoint, n: nat, buf: seq<Byte>, now: Endpoint, pieces: seq<seq<Byte>>)
    requires AllPlain(fs) && AtByte(fs, ep, n, buf, now)
    requires n + |Flatten(pieces)| <= |Wire(fs)| && Flatten(pieces) == Wire(fs)[n..n + |Flatten(pieces)|]
    ensures var r := ReadAll(buf, now, pieces); AtByte(fs, ep, n + |Flatten(pieces)|, r.rest, r.ep)
    decreases |pieces|
  {
    hide PackageProcess, ReceiveAll, Whole, Left;
    if pieces != [] {
      var piece := pieces[0];
      FlattenPiece(piece, Flatten(pieces[1..]), Wire(fs), n);
      OneRead(fs, ep, n, buf, now, piece);
      if |pieces| == 1 {
        assert pieces[1..] == [];
      } else {
        var r := PackageProcess(buf + piece, now);
        ReadsAdvance(fs, ep, n + |piece|, r.rest, r.ep, pieces[1..]);
      }
    }
  }

  // Any stream of well-formed packages, stopped anywhere and read in any pieces: the effect is that
  // of the packages that are complete, in order, each once; what is left is the beginning of the next.
  lemma AnyCutOfTheStream(fs: seq<Frame>, ep: Endpoint, pieces: seq<seq<Byte>>)
    requires AllPlain(fs) && Flatten(pieces) <= Wire(fs)
    ensures var r, k := ReadAll([], ep, pieces), Whole(Encodings(fs), |Flatten(pieces)|);
            && r.ep == ReceiveAll(ep, fs[..k])
            && Wire(fs[..k]) + r.rest == Flatten(pieces)
            && (r.rest == [] || (k < |fs| && r.rest < fs[k].Encode()))
  {
    var ms, n := Encodings(fs), |Flatten(pieces)|;
    WholeOfNone(ms);
    assert fs[..0] == [];
    ReadsAdvance(fs, ep, 0, [], ep, pieces);
    CutSplits(ms, n);
    assert Encodings(fs[..Whole(ms, n)]) == ms[..Whole(ms, n)];
  }
}

/** The read threads of src/daemon/daemon_uart.cpp and src/host/host_uart.cpp. */
module UartReadLoop {
  import opened Bytes
  import opened Framing
  import opened UartHead
  import opened UartQueue
  import opened UartReceive
  import opened UartParser
  import opened UartLink

  const MAX_READ_BUFFER: nat := MAX_UART_SIZE_IOBUF * 10

  // What one select/read round on the serial device brings.
  datatype DeviceRead = Arrived(bytes: seq<Byte>) | TimedOut | Failed {
    predicate Valid() {
      Arrived? ==> 1 <= |bytes| <= MAX_UART_SIZE_IOBUF
    }
  }

  predicate AllValid(device: seq<DeviceRead>) {
    forall i | 0 <= i < |device| :: device[i].Valid()
  }

  // ---- the loops as values ------------------------------------------------------------------

  // The buffer after a call of ReadUartDev, whether it failed, and the rounds of the device not used.
  // The device fails once its rounds are used up.
  datatype DevRead = DevRead(buf: seq<Byte>, failed: bool, rest: seq<DeviceRead>)

  function ReadDev(readBuf: seq<Byte>, expected: nat, device: seq<DeviceRead>): (r: DevRead)
    ensures |r.rest| <= |device| && (device != [] ==> |r.rest| < |device|)
    ensures readBuf <= r.buf
    decreases |device|
  {
    if device == [] then DevRead(readBuf, true, [])
    else
      match device[0]
      case Failed => DevRead(readBuf, true, device[1..])
      case TimedOut => if expected != 0 then DevRead(readBuf, false, device[1..]) else ReadDev(readBuf, expected, device[1..])
      case Arrived(bytes) =>
        var buf := readBuf + bytes;
        if |buf| >= expected then DevRead(buf, false, device[1..]) else ReadDev(buf, expected, device[1..])
  }

  // A read thread. The daemon's ends when a read fails; the host's, which reads for one session, drops
  // what is queued for it and goes on. A read that brings nothing drops what is buffered.
  function ReadLoop(host: Option<U32>, buf: seq<Byte>, expected: nat, ep: Endpoint, device: seq<DeviceRead>): Endpoint
    decreases |device|
  {
    if device == [] || |buf| >= MAX_READ_BUFFER then ep
    else
      var r := ReadDev(buf, expected, device);
      if r.failed && host.None? then ep
      else
        var ep1 := if r.failed then ep.(link := Clear(ep.link, host.value)) else ep;
        if !r.failed && |r.buf| == |buf| then ReadLoop(host, [], 0, ep1, r.rest)
        else if |r.buf| < HEAD_SIZE then ReadLoop(host, r.buf, expected, ep1, r.rest)
        else
          var p := PackageProcess(r.buf, ep1);
          ReadLoop(host, p.rest, p.expected, p.ep, r.rest)
  }

  // ---- the loops -------------------------------------------------------------------------------

  // Reads until `expected` bytes are buffered, or one read succeeds when nothing is expected. The
  // result is the number of bytes read, or -1.
  method ReadUartDev(readBuf: seq<Byte>, expected: nat, device: seq<DeviceRead>, next: nat)
    returns (buf: seq<Byte>, total: int, used: nat)
    requires AllValid(device) && next <= |device|
    ensures next <= used <= |device| && (next < |device| ==> next < used)
    ensures DevRead(buf, total < 0, device[used..]) == ReadDev(readBuf, expected, device[next..])
    ensures total >= 0 ==> total == |buf| - |readBuf|
    ensures |readBuf| < MAX_UART_SIZE_IOBUF && expected <= MAX_UART_SIZE_IOBUF ==> |buf| < 2 * MAX_UART_SIZE_IOBUF
  {
    buf, total, used := readBuf, 0, next;
    while true
      invariant next <= used <= |device| && total == |buf| - |readBuf|
      invariant buf == readBuf || |buf| < expected
      invariant ReadDev(buf, expected, device[used..]) == ReadDev(readBuf, expected, device[next..])
      decreases |device| - used
    {
      if used == |device| {
        return buf, -1, used;
      }
      var round := device[used];
      assert device[used..][1..] == device[used + 1..];
      used := used + 1;
      match round {
        case Failed => return buf, -1, used;
        case TimedOut =>
          if expected != 0 {
            return;
          }
        case Arrived(bytes) =>
          assert device[used - 1].Valid();
          buf := buf + bytes;
          total := total + |bytes|;
          if |buf| >= expected {
            return;
          }
      }
    }
  }

  // `full` tells whether the loop was left because the buffer had filled up; the peaks are the
  // largest sizes seen before and after a pass of the package parser.
  method DeamonReadThread(uart: HdcUart, device: seq<DeviceRead>)
    returns (full: bool, peakBefore: nat, peakAfter: nat)
    requires AllValid(device)
    modifies uart
    ensures uart.State() == ReadLoop(None, [], 0, old(uart.State()), device)
    ensures !full
    ensures peakBefore < 2 * MAX_UART_SIZE_IOBUF && peakAfter < MAX_UART_SIZE_IOBUF
  {
    hide ReadDev, UartReceive.PackageProcess, ReadLoop;
    var dataReadBuf: seq<Byte>, expectedSize: nat, next, isAlive := [], 0, 0, true;
    peakBefore, peakAfter := 0, 0;
    assert device[0..] == device;
    while isAlive && |dataReadBuf| < MAX_READ_BUFFER
      invariant next <= |device|
      invariant |dataReadBuf| < MAX_UART_SIZE_IOBUF && expectedSize <= MAX_UART_SIZE_IOBUF
      invariant peakBefore < 2 * MAX_UART_SIZE_IOBUF && peakAfter < MAX_UART_SIZE_IOBUF
      invariant if isAlive then
                  ReadLoop(None, dataReadBuf, expectedSize, uart.State(), device[next..]) == ReadLoop(None, [], 0, old(uart.State()), device)
                else uart.State() == ReadLoop(None, [], 0, old(uart.State()), device)
      decreases isAlive, |device| - next
    {
      OneRound(None, dataReadBuf, expectedSize, uart.State(), device[next..]);
      var bytesRead: int;
      dataReadBuf, bytesRead, next := ReadUartDev(dataReadBuf, expectedSize, device, next);
      if bytesRead == 0 {
        expectedSize := 0;
        dataReadBuf := [];
        continue;
      } else if bytesRead < 0 {
        isAlive := false;
        break;
      }
      peakBefore := if peakBefore < |dataReadBuf| then |dataReadBuf| else peakBefore;
      if |dataReadBuf| < HEAD_SIZE {
        continue;
      }
      ParserAsksForMore(dataReadBuf, uart.State());
      dataReadBuf, expectedSize := uart.PackageProcess(dataReadBuf);
      peakAfter := if peakAfter < |dataReadBuf| then |dataReadBuf| else peakAfter;
    }
    full := isAlive;
  }

  // The host loop is asked to stop once the rounds of the device are over.
  method UartReadThread(uart: HdcUart, sessionId: U32, device: seq<DeviceRead>)
    returns (full: bool, peakBefore: nat, peakAfter: nat)
    requires AllValid(device)
    modifies uart
    ensures uart.State() == ReadLoop(Some(sessionId), [], 0, old(uart.State()), device)
    ensures !full
    ensures peakBefore < 2 * MAX_UART_SIZE_IOBUF && peakAfter < MAX_UART_SIZE_IOBUF
  {
    hide ReadDev, UartReceive.PackageProcess, ReadLoop, Clear;
    var dataReadBuf: seq<Byte>, expectedSize: nat, next := [], 0, 0;
    full, peakBefore, peakAfter := true, 0, 0;
    assert device[0..] == device;
    while |dataReadBuf| < MAX_READ_BUFFER
      invariant next <= |device|
      invariant |dataReadBuf| < MAX_UART_SIZE_IOBUF && expectedSize <= MAX_UART_SIZE_IOBUF
      invariant full && peakBefore < 2 * MAX_UART_SIZE_IOBUF && peakAfter < MAX_UART_SIZE_IOBUF
      invariant ReadLoop(Some(sessionId), dataReadBuf, expectedSize, uart.State(), device[next..]) ==
                ReadLoop(Some(sessionId), [], 0, old(uart.State()), device)
      decreases |device| - next
    {
      OneRound(Some(sessionId), dataReadBuf, expectedSize, uart.State(), device[next..]);
      if next == |device| {
        full := false;
        break;
      }
      var bytesRead: int;
      dataReadBuf, bytesRead, next := ReadUartDev(dataReadBuf, expectedSize, device, next);
      if bytesRead < 0 {
        uart.ClearUARTOutMap(sessionId);
      } else if bytesRead == 0 {
        expectedSize := 0;
        dataReadBuf := [];
        continue;
      }
      peakBefore := if peakBefore < |dataReadBuf| then |dataReadBuf| else peakBefore;
      if |dataReadBuf| < HEAD_SIZE {
        continue;
      }
      ParserAsksForMore(dataReadBuf, uart.State());
      dataReadBuf, expectedSize := uart.PackageProcess(dataReadBuf);
      peakAfter := if peakAfter < |dataReadBuf| then |dataReadBuf| else peakAfter;
    }
  }

  lemma OneRound(host: Option<U32>, buf: seq<Byte>, expected: nat, ep: Endpoint, device: seq<DeviceRead>)
    requires |buf| < MAX_READ_BUFFER
    ensures device == [] ==> ReadLoop(host, buf, expected, ep, device) == ep && ReadDev(buf, expected, device).failed
    ensures device != [] ==>
              var r := ReadDev(buf, expected, device);
              ReadLoop(host, buf, expected, ep, device) ==
              if r.failed && host.None? then ep
              else
                var ep1 := if r.failed then ep.(link := Clear(ep.link, host.value)) else ep;
                if !r.failed && |r.buf| == |buf| then ReadLoop(host, [], 0, ep1, r.rest)
                else if |r.buf| < HEAD_SIZE then ReadLoop(host, r.buf, expected, ep1, r.rest)
                else
                  var p := PackageProcess(r.buf, ep1);
                  ReadLoop(host, p.rest, p.expected, p.ep, r.rest)
  {
    hide PackageProcess, Clear;
  }

  // ---- a stream that arrives in time ---------------------------------------------------------------

  function BytesOf(device: seq<DeviceRead>): seq<Byte> {
    if device == [] then []
    else (if device[0].Arrived? then device[0].bytes else []) + BytesOf(device[1..])
  }

  predicate AllArrived(device: seq<DeviceRead>) {
    forall i | 0 <= i < |device| :: device[i].Arrived? && device[i].Valid()
  }

  // No more is expected than completes the package begun.
  predicate Modest(fs: seq<Frame>, n: nat, expected: nat) {
    var k := Whole(Encodings(fs), n);
    k < |fs| ==> expected <= |fs[k].Encode()|
  }

  // Bytes that do not complete the package begun are only buffered.
  lemma StillPartial(fs: seq<Frame>, ep: Endpoint, n: nat, buf: seq<Byte>, now: Endpoint, piece: seq<Byte>)
    requires AllPlain(fs) && AtByte(fs, ep, n, buf, now)
    requires n + |piece| <= |Wire(fs)| && piece == Wire(fs)[n..n + |piece|]
    requires var k := Whole(Encodings(fs), n); k < |fs| ==> |buf + piece| < |fs[k].Encode()|
    ensures AtByte(fs, ep, n + |piece|, buf + piece, now)
    ensures Whole(Encodings(fs), n + |piece|) == Whole(Encodings(fs), n)
  {
    hide AllPlain, Encodings, Frame.Encode, ReceiveAll, Flatten, Whole, Left;
    var ms, m := Encodings(fs), n + |piece|;
    var j, k := Whole(ms, n), Whole(ms, m);
    ReadOn(ms, n, piece);
    if j < k {
      FirstOf(ms, j, k);
    } else {
      assert ms[j..k] == [];
      NothingFlat();
      assert [] + Left(ms, m) == Left(ms, m);
    }
  }

  lemma NothingFlat()
    ensures Flatten<Byte>([]) == []
  {
  }

  lemma FirstOf(ms: seq<seq<Byte>>, j: nat, k: nat)
    requires j < k <= |ms|
    ensures |Flatten(ms[j..k])| >= |ms[j]|
  {
  }

  // After a pass of the parser no more is expected than the package begun has.
  lemma ParserIsModest(fs: seq<Frame>, ep: Endpoint, n: nat, buf: seq<Byte>, piece: seq<Byte>, now: Endpoint)
    requires AllPlain(fs) && AtByte(fs, ep, n, buf, now)
    requires n + |piece| <= |Wire(fs)| && piece == Wire(fs)[n..n + |piece|]
    ensures var r := PackageProcess(buf + piece, now);
            AtByte(fs, ep, n + |piece|, r.rest, r.ep) && Modest(fs, n + |piece|, r.expected)
  {
    hide ReceiveAll, Whole, Left, Flatten, Frame.Encode, Encodings, AllPlain, PackageProcess;
    var ms, m := Encodings(fs), n + |piece|;
    var j, k := Whole(ms, n), Whole(ms, m);
    OneRead(fs, ep, n, buf, now, piece);
    OnlyTheRest(fs, ep, n, buf, piece, now);
    CutSplits(ms, m);
    if k < |fs| {
      SlicePlain(fs, k, k + 1);
      ExpectsPackage(fs[k], Left(ms, m), ReceiveAll(now, fs[j..k]));
    }
  }

  // The parser comes down to the bytes of the package not complete.
  lemma OnlyTheRest(fs: seq<Frame>, ep: Endpoint, n: nat, buf: seq<Byte>, piece: seq<Byte>, now: Endpoint)
    requires AllPlain(fs) && AtByte(fs, ep, n, buf, now)
    requires n + |piece| <= |Wire(fs)| && piece == Wire(fs)[n..n + |piece|]
    ensures var ms, m := Encodings(fs), n + |piece|;
            Whole(ms, n) <= Whole(ms, m) &&
            PackageProcess(buf + piece, now) ==
            PackageProcess(Left(ms, m), ReceiveAll(now, fs[Whole(ms, n)..Whole(ms, m)]))
  {
    hide ReceiveAll, Whole, Left, Flatten, Frame.Encode, Encodings, AllPlain, PackageProcess;
    var ms, m := Encodings(fs), n + |piece|;
    var j, k := Whole(ms, n), Whole(ms, m);
    ReadOn(ms, n, piece);
    WireSlice(fs, j, k);
    SlicePlain(fs, j, k);
    CompletePackages(fs[j..k], Left(ms, m), now);
  }

  lemma SlicePlain(fs: seq<Frame>, j: nat, k: nat)
    requires j <= k <= |fs| && AllPlain(fs)
    ensures AllPlain(fs[j..k]) && (j < k ==> Plain(fs[j]))
  {
    hide Plain;
  }

  lemma ExpectsPackage(f: Frame, part: seq<Byte>, ep: Endpoint)
    requires Plain(f) && (part == [] || part < f.Encode())
    ensures PackageProcess(part, ep).expected <= |f.Encode()|
  {
    if |part| >= HEAD_SIZE {
      assert part[..HEAD_SIZE] == f.Encode()[..HEAD_SIZE] == EncodeHead(f.head);
      HeadOnBuffer(f, part);
    }
  }

  // What one ReadUartDev brings of such a stream, and what the buffer is then.
  lemma {:induction false} OneDevRead(
    fs: seq<Frame>, ep: Endpoint, n: nat, buf: seq<Byte>, now: Endpoint, expected: nat, device: seq<DeviceRead>)
    returns (piece: seq<Byte>)
    requires AllPlain(fs) && AtByte(fs, ep, n, buf, now) && Modest(fs, n, expected)
    requires AllArrived(device) && n + |BytesOf(device)| <= |Wire(fs)|
    requires BytesOf(device) == Wire(fs)[n..n + |BytesOf(device)|]
    ensures var r := ReadDev(buf, expected, device);
            && r.buf == buf + piece && AllArrived(r.rest) && BytesOf(device) == piece + BytesOf(r.rest)
            && (r.failed ==> r.rest == [] && AtByte(fs, ep, n + |piece|, r.buf, now))
            && (!r.failed ==> piece != [])
    decreases |device|
  {
    hide AllPlain, Encodings, Wire, ReceiveAll, Whole, Left, ReadDev, BytesOf;
    if device == [] {
      piece := [];
      NoBytes();
      NoMoreRounds(buf, expected);
      assert buf + [] == buf;
    } else {
      ArrivedStep(buf, expected, device);
      var bytes, tail := device[0].bytes, BytesOf(device[1..]);
      SplitStream(Wire(fs), n, bytes, tail);
      if |buf + bytes| >= expected {
        piece := bytes;
      } else {
        StillPartial(fs, ep, n, buf, now, bytes);
        var more := OneDevRead(fs, ep, n + |bytes|, buf + bytes, now, expected, device[1..]);
        piece := bytes + more;
        Assoc(buf, bytes, more);
        Assoc(bytes, more, BytesOf(ReadDev(buf + bytes, expected, device[1..]).rest));
      }
    }
  }

  lemma ArrivedStep(buf: seq<Byte>, expected: nat, device: seq<DeviceRead>)
    requires device != [] && AllArrived(device)
    ensures device[0].Arrived? && device[0].bytes != [] && AllArrived(device[1..])
    ensures var bytes := device[0].bytes;
            && BytesOf(device) == bytes + BytesOf(device[1..])
            && ReadDev(buf, expected, device) ==
               if |buf + bytes| >= expected then DevRead(buf + bytes, false, device[1..])
               else ReadDev(buf + bytes, expected, device[1..])
  {
  }

  lemma NoMoreRounds(buf: seq<Byte>, expected: nat)
    ensures ReadDev(buf, expected, []) == DevRead(buf, true, [])
  {
  }

  lemma SplitStream(stream: seq<Byte>, n: nat, a: seq<Byte>, b: seq<Byte>)
    requires n + |a + b| <= |stream| && a + b == stream[n..n + |a + b|]
    ensures a == stream[n..n + |a|] && b == stream[n + |a|..n + |a| + |b|]
  {
    FlattenPiece(a, b, stream, n);
  }

  lemma {:induction false} LoopAdvances(
    fs: seq<Frame>, ep: Endpoint, n: nat, buf: seq<Byte>, now: Endpoint, expected: nat, device: seq<DeviceRead>)
    requires AllPlain(fs) && AtByte(fs, ep, n, buf, now) && Modest(fs, n, expected)
    requires |buf| < MAX_UART_SIZE_IOBUF && AllArrived(device)
    requires n + |BytesOf(device)| <= |Wire(fs)| && BytesOf(device) == Wire(fs)[n..n + |BytesOf(device)|]
    ensures ReadLoop(None, buf, expected, now, device) == ReceiveAll(ep, fs[..Whole(Encodings(fs), n + |BytesOf(device)|)])
    decreases |device|
  {
    hide AllPlain, Encodings, ReceiveAll, Flatten, Whole, Left, PackageProcess, ReadDev, BytesOf, ReadLoop;
    OneRound(None, buf, expected, now, device);
    if device == [] {
      NoBytes();
    } else {
      var r := ReadDev(buf, expected, device);
      var piece := OneDevRead(fs, ep, n, buf, now, expected, device);
      var m := n + |piece|;
      SplitStream(Wire(fs), n, piece, BytesOf(r.rest));
      if r.failed {
        NoBytes();
        assert piece + [] == piece;
      } else if |r.buf| < HEAD_SIZE {
        StillPartial(fs, ep, n, buf, now, piece);
        LoopAdvances(fs, ep, m, r.buf, now, expected, r.rest);
      } else {
        ParserIsModest(fs, ep, n, buf, piece, now);
        ParserAsksForMore(r.buf, now);
        var p := PackageProcess(r.buf, now);
        LoopAdvances(fs, ep, m, p.rest, p.ep, p.expected, r.rest);
      }
    }
  }

  lemma NoBytes()
    ensures BytesOf([]) == []
  {
  }

  // However the device cuts the stream of a row of packages, and however many bytes each pass waited
  // for: the daemon's read thread has the effect of the packages complete by then, in order, each once.
  lemma TimelyReadsLoseNothing(fs: seq<Frame>, ep: Endpoint, device: seq<DeviceRead>)
    requires AllPlain(fs) && AllArrived(device) && BytesOf(device) <= Wire(fs)
    ensures ReadLoop(None, [], 0, ep, device) == ReceiveAll(ep, fs[..Whole(Encodings(fs), |BytesOf(device)|)])
  {
    hide ReadLoop, BytesOf, Wire, AllPlain;
    WholeOfNone(Encodings(fs));
    assert fs[..0] == [];
    LoopAdvances(fs, ep, 0, [], ep, 0, device);
  }
}

/** What a read thread makes of a line that falls silent: its rounds one by one. */
module UartTimeouts {
  import opened Bytes
  import opened Framing
  import opened UartHead
  import opened UartQueue
  import opened UartReceive
  import opened UartParser
  import opened UartChecksum
  import opened UartAnswers
  import opened UartReadLoop

  // The daemon's thread between two rounds of the device, waiting in ReadUartDev: what is buffered and
  // expected, and whether bytes have arrived since ReadUartDev was called.
  datatype Thread = Thread(buf: seq<Byte>, expected: nat, got: bool, ep: Endpoint)

  function NewThread(ep: Endpoint): Thread {
    Thread([], 0, false, ep)
  }

  // ReadUartDev returned with bytes: too few for a head, or the parser looks at them.
  function Looked(buf: seq<Byte>, expected: nat, ep: Endpoint): Thread {
    if |buf| < HEAD_SIZE then Thread(buf, expected, false, ep)
    else
      var p := PackageProcess(buf, ep);
      Thread(p.rest, p.expected, false, p.ep)
  }

  // A round. Nobody waits for a timeout unless something is expected; one ends ReadUartDev, and if
  // nothing had arrived the thread drops what it has.
  function Round(t: Thread, r: DeviceRead): Thread
    requires !r.Failed?
  {
    match r
    case Arrived(bytes) =>
      var buf := t.buf + bytes;
      if |buf| >= t.expected then Looked(buf, t.expected, t.ep) else Thread(buf, t.expected, true, t.ep)
    case TimedOut =>
      if t.expected == 0 then t
      else if t.got then Looked(t.buf, t.expected, t.ep)
      else NewThread(t.ep)
  }

  predicate NoneFails(device: seq<DeviceRead>) {
    forall i | 0 <= i < |device| :: !device[i].Failed? && device[i].Valid()
  }

  function Rounds(t: Thread, device: seq<DeviceRead>): Thread
    requires NoneFails(device)
    decreases |device|
  {
    if device == [] then t else Rounds(Round(t, device[0]), device[1..])
  }

  // ---- the rounds are those of the loop --------------------------------------------------------

  // Less than a device buffer is held, and no more expected; bytes wait only for the rest of what is
  // expected.
  predicate Small(t: Thread) {
    |t.buf| < MAX_UART_SIZE_IOBUF && t.expected <= MAX_UART_SIZE_IOBUF && (t.got ==> |t.buf| < t.expected)
  }

  // The loop as it goes on from such a state.
  function LoopFrom(t: Thread, device: seq<DeviceRead>): Endpoint {
    var r := ReadDev(t.buf, t.expected, device);
    if r.failed then t.ep
    else if |r.buf| == |t.buf| && !t.got then ReadLoop(None, [], 0, t.ep, r.rest)
    else if |r.buf| < HEAD_SIZE then ReadLoop(None, r.buf, t.expected, t.ep, r.rest)
    else
      var p := PackageProcess(r.buf, t.ep);
      ReadLoop(None, p.rest, p.expected, p.ep, r.rest)
  }

  lemma LoopIs(t: Thread, device: seq<DeviceRead>)
    requires Small(t) && !t.got
    ensures LoopFrom(t, device) == ReadLoop(None, t.buf, t.expected, t.ep, device)
  {
    hide PackageProcess, ReadDev;
    OneRound(None, t.buf, t.expected, t.ep, device);
  }

  lemma LookedIsSmall(t: Thread, buf: seq<Byte>)
    requires t.expected <= MAX_UART_SIZE_IOBUF
    ensures Small(Looked(buf, t.expected, t.ep)) && !Looked(buf, t.expected, t.ep).got
  {
    hide PackageProcess;
    ParserAsksForMore(buf, t.ep);
  }

  lemma RoundIsSmall(t: Thread, r: DeviceRead)
    requires Small(t) && !r.Failed?
    ensures Small(Round(t, r))
  {
    hide Looked;
    if r.Arrived? {
      LookedIsSmall(t, t.buf + r.bytes);
    } else {
      LookedIsSmall(t, t.buf);
    }
  }

  lemma ReadDevStep(t: Thread, r: DeviceRead, rest: seq<DeviceRead>)
    ensures ReadDev(t.buf, t.expected, [r] + rest) ==
            match r
            case Failed => DevRead(t.buf, true, rest)
            case TimedOut => if t.expected != 0 then DevRead(t.buf, false, rest) else ReadDev(t.buf, t.expected, rest)
            case Arrived(bytes) =>
              if |t.buf + bytes| >= t.expected then DevRead(t.buf + bytes, false, rest)
              else ReadDev(t.buf + bytes, t.expected, rest)
  {
    assert ([r] + rest)[1..] == rest;
  }

  lemma LoopRound(t: Thread, r: DeviceRead, rest: seq<DeviceRead>)
    requires Small(t) && !r.Failed? && r.Valid()
    ensures LoopFrom(t, [r] + rest) == LoopFrom(Round(t, r), rest)
  {
    hide PackageProcess, ReadDev, ReadLoop;
    ReadDevStep(t, r, rest);
    RoundIsSmall(t, r);
    if !Round(t, r).got {
      LoopIs(Round(t, r), rest);
    }
  }

  lemma {:induction false} LoopRounds(t: Thread, device: seq<DeviceRead>, rest: seq<DeviceRead>)
    requires Small(t) && NoneFails(device)
    ensures LoopFrom(t, device + rest) == LoopFrom(Rounds(t, device), rest) && Small(Rounds(t, device))
    decreases |device|
  {
    hide LoopFrom, Round;
    if device == [] {
      assert device + rest == rest;
    } else {
      RoundIsSmall(t, device[0]);
      LoopRound(t, device[0], device[1..] + rest);
      assert device + rest == [device[0]] + (device[1..] + rest);
      LoopRounds(Round(t, device[0]), device[1..], rest);
    }
  }

  // The daemon's thread on a device whose rounds do not fail, and on one that fails after them.
  lemma ThreadIs(ep: Endpoint, device: seq<DeviceRead>, rest: seq<DeviceRead>)
    requires NoneFails(device)
    ensures ReadLoop(None, [], 0, ep, device) == Rounds(NewThread(ep), device).ep
    ensures ReadLoop(None, [], 0, ep, device + ([Failed] + rest)) == Rounds(NewThread(ep), device).ep
  {
    hide ReadLoop, Rounds, Round, ReadDev;
    var t := Rounds(NewThread(ep), device);
    LoopRounds(NewThread(ep), device, []);
    LoopRounds(NewThread(ep), device, [Failed] + rest);
    LoopIs(NewThread(ep), device);
    LoopIs(NewThread(ep), device + ([Failed] + rest));
    assert device + [] == device;
    NoMoreRounds(t.buf, t.expected);
    ReadDevStep(t, Failed, rest);
  }

  lemma {:induction false} RoundsAppend(t: Thread, a: seq<DeviceRead>, b: seq<DeviceRead>)
    requires NoneFails(a) && NoneFails(b)
    ensures NoneFails(a + b) && Rounds(t, a + b) == Rounds(Rounds(t, a), b)
    decreases |a|
  {
    hide Round;
    if a == [] {
      assert a + b == b;
    } else {
      assert (a + b)[1..] == a[1..] + b;
      RoundsAppend(Round(t, a[0]), a[1..], b);
    }
  }

  // ---- silence ---------------------------------------------------------------------------------

  function Silence(n: nat): (device: seq<DeviceRead>)
    ensures |device| == n && NoneFails(device)
  {
    seq(n, _ => TimedOut)
  }

  // With nothing expected any number of timeouts changes nothing.
  lemma {:induction false} NothingExpected(t: Thread, n: nat)
    requires t.expected == 0
    ensures Rounds(t, Silence(n)) == t
    decreases n
  {
    if n > 0 {
      assert Silence(n)[1..] == Silence(n - 1);
      NothingExpected(t, n - 1);
    }
  }

  // With something expected and nothing arrived since, one timeout drops what is buffered.
  lemma OneDrops(t: Thread)
    requires t.expected != 0 && !t.got
    ensures Rounds(t, Silence(1)) == NewThread(t.ep)
  {
    assert Silence(1)[1..] == [];
  }

  // A package begun keeps the parser waiting, at any byte of it behind its head.
  lemma ExpectsRest(f: Frame, part: seq<Byte>, ep: Endpoint)
    requires Plain(f) && HEAD_SIZE <= |part| && part < f.Encode()
    ensures PackageProcess(part, ep) == Parsed(part, ep, |f.Encode()|)
  {
    assert part[..HEAD_SIZE] == f.Encode()[..HEAD_SIZE] == EncodeHead(f.head);
    HeadOnBuffer(f, part);
  }

  // The thread holds the beginning of a package and waits for the rest.
  predicate Waits(t: Thread, f: Frame) {
    Plain(f) && t.buf != [] && t.buf < f.Encode() && t.expected != 0
  }

  // Two timeouts drop it in any case: the first only ends the call that some bytes had come to.
  lemma TwoDrop(t: Thread, f: Frame)
    requires Waits(t, f)
    ensures Rounds(t, Silence(2)) == NewThread(t.ep)
  {
    hide PackageProcess, Frame.Encode, Plain;
    assert Silence(2)[1..] == Silence(1) && Silence(1)[1..] == [];
    if t.got && |t.buf| >= HEAD_SIZE {
      ExpectsRest(f, t.buf, t.ep);
    }
    assert Rounds(t, Silence(2)) == Round(Round(t, TimedOut), TimedOut);
  }

  // ---- streams with silence between them --------------------------------------------------------------

  // After n bytes of the stream of `fs`, however they arrived.
  predicate Reading(fs: seq<Frame>, ep: Endpoint, n: nat, t: Thread) {
    && AtByte(fs, ep, n, t.buf, t.ep) && Modest(fs, n, t.expected)
    && (|t.buf| >= HEAD_SIZE ==> t.expected != 0)
  }

  lemma ArrivedRound(fs: seq<Frame>, ep: Endpoint, n: nat, t: Thread, piece: seq<Byte>)
    requires AllPlain(fs) && Reading(fs, ep, n, t) && Small(t)
    requires n + |piece| <= |Wire(fs)| && piece == Wire(fs)[n..n + |piece|]
    ensures Reading(fs, ep, n + |piece|, Round(t, Arrived(piece)))
  {
    hide AllPlain, Encodings, ReceiveAll, Flatten, Whole, Left, PackageProcess, AtByte;
    var buf := t.buf + piece;
    if |buf| < t.expected || |buf| < HEAD_SIZE {
      NotComplete(fs, ep, n, t, piece);
      StillPartial(fs, ep, n, t.buf, t.ep, piece);
    } else {
      ParserIsModest(fs, ep, n, t.buf, piece, t.ep);
      ParserAsksForMore(buf, t.ep);
    }
  }

  lemma NotComplete(fs: seq<Frame>, ep: Endpoint, n: nat, t: Thread, piece: seq<Byte>)
    requires AllPlain(fs) && Reading(fs, ep, n, t) && (|t.buf + piece| < t.expected || |t.buf + piece| < HEAD_SIZE)
    ensures var k := Whole(Encodings(fs), n); k < |fs| ==> |t.buf + piece| < |fs[k].Encode()|
  {
  }

  lemma {:induction false} StreamRounds(fs: seq<Frame>, ep: Endpoint, n: nat, t: Thread, device: seq<DeviceRead>)
    requires AllPlain(fs) && Reading(fs, ep, n, t) && Small(t) && AllArrived(device)
    requires n + |BytesOf(device)| <= |Wire(fs)| && BytesOf(device) == Wire(fs)[n..n + |BytesOf(device)|]
    ensures NoneFails(device)
    ensures Reading(fs, ep, n + |BytesOf(device)|, Rounds(t, device)) && Small(Rounds(t, device))
    decreases |device|
  {
    hide AllPlain, Wire, Reading, Small, BytesOf, Round;
    if device == [] {
      NoBytes();
    } else {
      ArrivedStep(t.buf, t.expected, device);
      var piece := device[0].bytes;
      SplitStream(Wire(fs), n, piece, BytesOf(device[1..]));
      ArrivedRound(fs, ep, n, t, piece);
      RoundIsSmall(t, device[0]);
      StreamRounds(fs, ep, n + |piece|, Round(t, device[0]), device[1..]);
    }
  }

  // The thread from a clean state through one stream.
  lemma OneStream(fs: seq<Frame>, ep: Endpoint, device: seq<DeviceRead>)
    requires AllPlain(fs) && AllArrived(device) && BytesOf(device) <= Wire(fs)
    ensures NoneFails(device)
    ensures var t, n := Rounds(NewThread(ep), device), |BytesOf(device)|;
            && Small(t) && t.ep == ReceiveAll(ep, fs[..Whole(Encodings(fs), n)]) && t.buf == Left(Encodings(fs), n)
            && (|t.buf| >= HEAD_SIZE ==> t.expected != 0)
            && (t.buf != [] && t.expected != 0 ==> exists f :: Waits(t, f))
  {
    hide AllPlain, Wire, Rounds, ReceiveAll, Left, Whole, BytesOf, Encodings, Plain;
    WholeOfNone(Encodings(fs));
    assert fs[..0] == [];
    assert Reading(fs, ep, 0, NewThread(ep)) by { EmptyReceive(ep); }
    StreamRounds(fs, ep, 0, NewThread(ep), device);
    var t, n := Rounds(NewThread(ep), device), |BytesOf(device)|;
    LeftBegins(fs, n);
    if t.buf != [] && t.expected != 0 {
      assert Waits(t, fs[Whole(Encodings(fs), n)]);
    }
  }

  lemma LeftBegins(fs: seq<Frame>, n: nat)
    requires AllPlain(fs) && n <= |Wire(fs)|
    ensures var part, k := Left(Encodings(fs), n), Whole(Encodings(fs), n);
            part != [] ==> k < |fs| && Plain(fs[k]) && part < fs[k].Encode()
  {
    hide Plain, Frame.Encode;
    CutSplits(Encodings(fs), n);
  }

  lemma EmptyReceive(ep: Endpoint)
    ensures ReceiveAll(ep, []) == ep
  {
  }

  // A stream cut inside a package and silence behind it. If nothing was buffered the silence changes
  // nothing; if the parser had seen the head the bytes are dropped, at the latest by the second timeout.
  lemma CutAndSilent(fs: seq<Frame>, ep: Endpoint, device: seq<DeviceRead>)
    requires AllPlain(fs) && AllArrived(device) && BytesOf(device) <= Wire(fs)
    requires var part := Left(Encodings(fs), |BytesOf(device)|); part == [] || |part| >= HEAD_SIZE
    ensures NoneFails(device + Silence(2))
    ensures Rounds(NewThread(ep), device + Silence(2)) == NewThread(ReceiveAll(ep, fs[..Whole(Encodings(fs), |BytesOf(device)|)]))
  {
    hide AllPlain, AllArrived, Wire, Rounds, ReceiveAll, Left, Whole, BytesOf, Encodings, Waits;
    OneStream(fs, ep, device);
    var t := Rounds(NewThread(ep), device);
    RoundsAppend(NewThread(ep), device, Silence(2));
    if t.buf != [] {
      var f :| Waits(t, f);
      TwoDrop(t, f);
    } else if t.expected == 0 {
      NothingExpected(t, 2);
      NoneGot(t);
    } else {
      EmptyDrops(t);
    }
  }

  lemma NoneGot(t: Thread)
    requires Small(t) && t.expected == 0
    ensures !t.got
  {
  }

  lemma EmptyDrops(t: Thread)
    requires t.buf == [] && t.expected != 0
    ensures Rounds(t, Silence(2)) == NewThread(t.ep)
  {
    assert Silence(2)[1..] == Silence(1) && Silence(1)[1..] == [];
    assert Rounds(t, Silence(2)) == Round(Round(t, TimedOut), TimedOut);
  }

  // ---- what that comes to ------------------------------------------------------------------------------

  datatype Burst = Burst(fs: seq<Frame>, device: seq<DeviceRead>)

  // Packages that arrive in any pieces, the last of them perhaps cut behind its head.
  predicate CutBehindHead(b: Burst) {
    && AllPlain(b.fs) && AllArrived(b.device) && BytesOf(b.device) <= Wire(b.fs)
    && var part := Left(Encodings(b.fs), |BytesOf(b.device)|);
    part == [] || |part| >= HEAD_SIZE
  }

  predicate AllCut(bs: seq<Burst>) {
    forall i | 0 <= i < |bs| :: CutBehindHead(bs[i])
  }

  // The bursts with the line silent for two timeouts behind each.
  function Device(bs: seq<Burst>): seq<DeviceRead> {
    if bs == [] then [] else bs[0].device + Silence(2) + Device(bs[1..])
  }

  // Their complete packages.
  function Complete(bs: seq<Burst>): seq<Frame>
    requires AllCut(bs)
  {
    if bs == [] then []
    else bs[0].fs[..Whole(Encodings(bs[0].fs), |BytesOf(bs[0].device)|)] + Complete(bs[1..])
  }

  lemma {:induction false} BurstRounds(bs: seq<Burst>, ep: Endpoint)
    requires AllCut(bs)
    ensures NoneFails(Device(bs))
    ensures Rounds(NewThread(ep), Device(bs)) == NewThread(ReceiveAll(ep, Complete(bs)))
    decreases |bs|
  {
    hide ReceiveAll, Whole, Encodings, BytesOf, Rounds, Left, Wire, AllPlain, AllArrived;
    if bs == [] {
      EmptyReceive(ep);
      NoRounds(ep);
    } else {
      assert CutBehindHead(bs[0]);
      var b := bs[0];
      var whole := b.fs[..Whole(Encodings(b.fs), |BytesOf(b.device)|)];
      CutAndSilent(b.fs, ep, b.device);
      BurstRounds(bs[1..], ReceiveAll(ep, whole));
      RoundsAppend(NewThread(ep), b.device + Silence(2), Device(bs[1..]));
      ReceiveAllAppend(ep, whole, Complete(bs[1..]));
    }
  }

  lemma NoRounds(ep: Endpoint)
    ensures Rounds(NewThread(ep), []) == NewThread(ep)
  {
  }

  // The daemon's thread over bursts with silence between them: a package cut behind its head is dropped,
  // alone, and every package that is complete has its effect, in order, each once.
  lemma OnlyCutPackagesAreLost(bs: seq<Burst>, ep: Endpoint)
    requires AllCut(bs)
    ensures ReadLoop(None, [], 0, ep, Device(bs)) == ReceiveAll(ep, Complete(bs))
  {
    hide ReadLoop, ReceiveAll, Complete, Rounds, AllCut;
    BurstRounds(bs, ep);
    ThreadIs(ep, Device(bs), []);
  }

  // One timeout, wherever the stream of `fs` is cut, and another stream behind it. Nothing expected: the
  // two streams are read as if there had been no silence. Something expected and nothing arrived since:
  // what is buffered is dropped, and the complete packages of both have their effect.
  lemma OneTimeout(fs: seq<Frame>, gs: seq<Frame>, ep: Endpoint, d1: seq<DeviceRead>, d2: seq<DeviceRead>)
    requires AllPlain(fs) && AllArrived(d1) && BytesOf(d1) <= Wire(fs)
    requires AllPlain(gs) && AllArrived(d2) && BytesOf(d2) <= Wire(gs)
    ensures NoneFails(d1)
    ensures var t, end := Rounds(NewThread(ep), d1), ReadLoop(None, [], 0, ep, d1 + ([TimedOut] + d2));
            && (t.expected == 0 ==> end == ReadLoop(None, [], 0, ep, d1 + d2))
            && (t.expected != 0 && !t.got ==>
                 end == ReceiveAll(ep, fs[..Whole(Encodings(fs), |BytesOf(d1)|)] + gs[..Whole(Encodings(gs), |BytesOf(d2)|)]))
  {
    hide AllPlain, AllArrived, Wire, Rounds, ReceiveAll, Left, Whole, BytesOf, Encodings, ReadLoop, Waits;
    OneStream(fs, ep, d1);
    var t := Rounds(NewThread(ep), d1);
    OneStream(gs, t.ep, d2);
    assert Silence(1) == [TimedOut];
    RoundsAppend(NewThread(ep), d1, d2);
    RoundsAppend(t, [TimedOut], d2);
    RoundsAppend(NewThread(ep), d1, [TimedOut] + d2);
    ThreadIs(ep, d1 + ([TimedOut] + d2), []);
    ThreadIs(ep, d1 + d2, []);
    if t.expected == 0 {
      NothingExpected(t, 1);
    } else if !t.got {
      OneDrops(t);
      ReceiveAllAppend(ep, fs[..Whole(Encodings(fs), |BytesOf(d1)|)], gs[..Whole(Encodings(gs), |BytesOf(d2)|)]);
    }
  }

  lemma ThreeRounds(t: Thread, a: DeviceRead, b: DeviceRead, c: DeviceRead)
    requires !a.Failed? && !b.Failed? && !c.Failed? && NoneFails([a, b, c])
    ensures Rounds(t, [a, b, c]) == Round(Round(Round(t, a), b), c)
  {
    hide Round;
    var t1 := Round(t, a);
    var t2 := Round(t1, b);
    assert [a, b, c][1..] == [b, c] && [b, c][1..] == [c] && [c][1..] == [];
    assert Rounds(t2, [c]) == Rounds(Round(t2, c), []);
    assert Rounds(t1, [b, c]) == Rounds(t2, [c]);
  }

  // The cut package in front of a whole one, after one timeout: dropped if its bytes came in one round.
  lemma CutInOneRound(f: Frame, g: Frame, n: nat, ep: Endpoint)
    requires Plain(f) && Plain(g) && HEAD_SIZE <= n < |f.Encode()|
    ensures ReadLoop(None, [], 0, ep, [Arrived(f.Encode()[..n]), TimedOut, Arrived(g.Encode())]) == ReceiveAll(ep, [g])
  {
    hide ReadLoop, Rounds, Plain, Frame.Encode, PackageProcess, Receive;
    var device := [Arrived(f.Encode()[..n]), TimedOut, Arrived(g.Encode())];
    PlainFits(f);
    PlainFits(g);
    ThreadIs(ep, device, []);
    ThreeRounds(NewThread(ep), device[0], device[1], device[2]);
    ExpectsRest(f, f.Encode()[..n], ep);
    assert [] + f.Encode()[..n] == f.Encode()[..n] && [] + g.Encode() == g.Encode();
    CompletePackage(g, [], ep);
    assert g.Encode() + [] == g.Encode();
    assert PackageProcess([], Receive(ep, g)) == Parsed([], Receive(ep, g), 0) by { NothingToParse(Receive(ep, g)); }
    assert [g][1..] == [];
  }

  lemma NothingToParse(ep: Endpoint)
    ensures PackageProcess([], ep) == Parsed([], ep, 0)
  {
  }

  lemma PlainFits(f: Frame)
    requires Plain(f)
    ensures HEAD_SIZE <= |f.Encode()| <= MAX_UART_SIZE_IOBUF
  {
  }

  // And not if they came in two, the second to the call that waits for the rest: the timeout then only
  // ends that call, what comes next is taken for the missing bytes, and both packages are lost.
  lemma CutInTwoRounds(f: Frame, g: Frame, ep: Endpoint)
    requires Plain(f) && Plain(g) && |f.payload| == 2 && f.payload[1] != FLAG0
    ensures var s := f.Encode();
            ReadLoop(None, [], 0, ep, [Arrived(s[..24]), Arrived(s[24..25]), TimedOut, Arrived(g.Encode())]) == ep
  {
    hide ReadLoop, Rounds, Round, Plain, PackageProcess, Frame.Encode;
    var s := f.Encode();
    var first, rest := Arrived(s[..24]), [Arrived(s[24..25]), TimedOut, Arrived(g.Encode())];
    PlainFits(f);
    PlainFits(g);
    ThreadIs(ep, [first] + rest, []);
    assert [first] + rest == [Arrived(s[..24]), Arrived(s[24..25]), TimedOut, Arrived(g.Encode())];
    HeadFirst(f, ep);
    var t := Thread(s[..24], 26, false, ep);
    assert Rounds(NewThread(ep), [first] + rest) == Rounds(t, rest) by { FirstRound(NewThread(ep), first, rest); }
    ThreeRounds(t, rest[0], rest[1], rest[2]);
    OneByteMore(f, ep);
    TakenForTheRest(f, g, ep);
  }

  lemma FirstRound(t: Thread, first: DeviceRead, rest: seq<DeviceRead>)
    requires NoneFails([first] + rest)
    ensures NoneFails(rest) && !first.Failed? && Rounds(t, [first] + rest) == Rounds(Round(t, first), rest)
  {
    hide Round;
    assert ([first] + rest)[1..] == rest && ([first] + rest)[0] == first;
    assert forall i | 0 <= i < |rest| :: rest[i] == ([first] + rest)[i + 1];
  }

  lemma HeadFirst(f: Frame, ep: Endpoint)
    requires Plain(f) && |f.payload| == 2
    ensures Round(NewThread(ep), Arrived(f.Encode()[..24])) == Thread(f.Encode()[..24], 26, false, ep)
  {
    hide PackageProcess, Plain;
    ExpectsRest(f, f.Encode()[..24], ep);
    assert [] + f.Encode()[..24] == f.Encode()[..24];
  }

  // The byte arrives and the timeout ends the call.
  lemma OneByteMore(f: Frame, ep: Endpoint)
    requires Plain(f) && |f.payload| == 2
    ensures var s := f.Encode();
            Round(Round(Thread(s[..24], 26, false, ep), Arrived(s[24..25])), TimedOut) == Thread(s[..25], 26, false, ep)
  {
    hide PackageProcess, Plain;
    var s := f.Encode();
    ExpectsRest(f, s[..25], ep);
    assert s[..24] + s[24..25] == s[..25];
  }

  lemma TakenForTheRest(f: Frame, g: Frame, ep: Endpoint)
    requires Plain(f) && Plain(g) && |f.payload| == 2 && f.payload[1] != FLAG0
    ensures Round(Thread(f.Encode()[..25], 26, false, ep), Arrived(g.Encode())).ep == ep
  {
    hide PackageProcess;
    var s := f.Encode();
    assert g.Encode()[0] == FLAG0;
    assert s[..25] + g.Encode() == s[25 := FLAG0] + g.Encode()[1..];
    OneByteReplaced(f, 25, FLAG0, g.Encode()[1..], ep);
  }

  // ---- failed reads --------------------------------------------------------------------------------

  // The host's thread goes on after a failed read: what it has buffered stays, of its queue everything
  // of the session is gone, and the session has its slot back if one of them was data.
  lemma HostGoesOn(sid: U32, buf: seq<Byte>, expected: nat, ep: Endpoint, rest: seq<DeviceRead>) returns (now: Endpoint)
    requires |buf| < HEAD_SIZE
    ensures ReadLoop(Some(sid), buf, expected, ep, [Failed] + rest) == ReadLoop(Some(sid), buf, expected, now, rest)
    ensures forall p :: p in now.link.pkgs <==> p in ep.link.pkgs && p.sessionId != sid
    ensures now.link.slots == if HasData(ep.link.pkgs, sid) then ep.link.slots - {sid} else ep.link.slots
    ensures now.delivered == ep.delivered && now.dispatched == ep.dispatched && now.freed == ep.freed && now.resets == ep.resets
  {
    hide PackageProcess, ReadDev;
    now := ep.(link := Clear(ep.link, sid));
    OneRound(Some(sid), buf, expected, ep, [Failed] + rest);
    ReadDevStep(Thread(buf, expected, false, ep), Failed, rest);
    WithoutKeepsOthers(ep.link.pkgs, sid);
  }
}

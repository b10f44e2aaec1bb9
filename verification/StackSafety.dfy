/** From Send to FetchCommand over a lossy line: what one session sends the other dispatches, in order. */
module StackSafety {
  import opened Bytes
  import opened Framing
  import opened UartHead
  import opened UartQueue
  import opened UartReceive
  import opened UartParser
  import opened UartSegment
  import Arq
  import opened ArqSafety
  import opened ArqFlow
  import S = Session
  import opened SerialStack

  // ---- the link under the bytes -----------------------------------------------------------

  // The link as if packages whose bytes are not all parsed were still on the line: `ab` and `ba` are
  // those packages, from a to b and from b to a.
  function Under(c: Stack, ab: seq<Frame>, ba: seq<Frame>): Arq.Sys {
    c.sys.(ab := ab + c.sys.ab, ba := ba + c.sys.ba)
  }

  // The bytes b has of the packages `fs` and those still coming are these packages, and b has not a
  // whole one of them.
  predicate Begun(fs: seq<Frame>, readBuf: seq<Byte>, coming: seq<Byte>) {
    && Wire(fs) == readBuf + coming
    && (readBuf == [] || (fs != [] && readBuf < fs[0].Encode()))
  }

  // ---- a's messages on their way to b's session ------------------------------------------------

  // The packages a has still to request are those SendUARTData cuts, in their place.
  predicate ToRequest(c: Stack) {
    var fs, k := c.a.toRequest, |c.sys.a.requested|;
    forall i | 0 <= i < |fs| ::
      && 1 <= |fs[i].payload| <= PACKAGE_DATA_MAX_SIZE
      && fs[i] == Segment(c.sys.sid, k + 1 + i, fs[i].payload, i == |fs| - 1)
  }

  predicate Sending(c: Stack) {
    && S.AllSendable(c.a.sent)
    && ToRequest(c)
    && Flatten(c.sys.a.requested) + Flatten(Payloads(c.a.toRequest)) == Flatten(S.Packets(c.a.sent))
  }

  predicate Fetching(c: Stack)
    requires S.AllSendable(c.a.sent)
  {
    var ss := S.Packets(c.a.sent);
    && c.b.piped <= |Flatten(c.sys.b.ep.delivered)|
    && c.b.piped <= |Flatten(ss)|
    && c.b.ioBuf == Left(ss, c.b.piped)
    && c.b.log == c.a.sent[..Whole(ss, c.b.piped)]
    && !c.b.failed
  }

  predicate Upper(c: Stack) {
    Sending(c) && Fetching(c)
  }

  predicate Good(c: Stack, ab: seq<Frame>, ba: seq<Frame>) {
    && Inv(Under(c, ab, ba))
    && Begun(ab, c.b.readBuf, c.ab) && Begun(ba, c.a.readBuf, c.ba)
    && Upper(c) && Upper(c.Flip())
  }

  lemma GoodFlips(c: Stack, ab: seq<Frame>, ba: seq<Frame>)
    requires Good(c, ab, ba)
    ensures Good(c.Flip(), ba, ab)
  {
    hide Upper, Begun, Tidy, LinkFrames, Flow.Ok, FlowOf;
    assert Under(c.Flip(), ba, ab) == Under(c, ab, ba).Flip();
    assert c.Flip().Flip() == c;
  }

  // ---- facts about prefixes ---------------------------------------------------------------------

  lemma FlattenPrefix<T>(xs: seq<seq<T>>, ys: seq<seq<T>>)
    requires xs <= ys
    ensures Flatten(xs) <= Flatten(ys)
  {
    FlattenAppend(xs, ys[|xs|..]);
    assert xs + ys[|xs|..] == ys;
  }

  lemma {:induction false} MoreMessages(ss: seq<seq<Byte>>, x: seq<Byte>, n: nat)
    requires n <= |Flatten(ss)| && x != []
    ensures |Flatten(ss + [x])| == |Flatten(ss)| + |x|
    ensures Whole(ss + [x], n) == Whole(ss, n) && Left(ss + [x], n) == Left(ss, n)
    decreases |ss|
  {
    FlattenAppend(ss, [x]);
    FlattenOne(x);
    if ss == [] {
      assert ss + [x] == [x];
    } else if n >= |ss[0]| {
      assert (ss + [x])[1..] == ss[1..] + [x];
      MoreMessages(ss[1..], x, n - |ss[0]|);
    }
  }

  // What was dispatched by the link is a prefix of the packets sent.
  lemma DispatchedIsSent(c: Stack, ab: seq<Frame>, ba: seq<Frame>)
    requires Inv(Under(c, ab, ba)) && Sending(c)
    ensures c.sys.b.ep.delivered <= c.sys.a.requested
    ensures Flatten(c.sys.b.ep.delivered) <= Flatten(S.Packets(c.a.sent))
  {
    hide Tidy, LinkFrames, Flow.OnWire, Flow.Acks, Flow.Queue, Flow.Settled, Flatten;
    FlattenPrefix(c.sys.b.ep.delivered, c.sys.a.requested);
  }

  // ---- the steps of one end ------------------------------------------------------------------------

  lemma SendStep(c: Stack, d: Stack, ab: seq<Frame>, ba: seq<Frame>, m: S.Message)
    requires Enabled(c, Send(m)) && d == StepA(c, Send(m))
    requires Good(c, ab, ba)
    ensures Good(d, ab, ba)
  {
    hide Inv, Begun, Flatten, Whole, Left, S.Packet, S.Packets, Cut, Segment;
    var fs, ss, x := d.a.toRequest, S.Packets(c.a.sent), S.Packet(m);
    assert S.Packets(d.a.sent) == ss + [x];
    forall i | 0 <= i < |fs|
      ensures 1 <= |fs[i].payload| && fs[i] == Segment(c.sys.sid, |c.sys.a.requested| + 1 + i, fs[i].payload, i == |fs| - 1)
    {
      PackageShape(c.sys.sid, |c.sys.a.requested|, x, i);
      NumberedPackage(c.sys.sid, |c.sys.a.requested|, x, i);
    }
    PayloadsJoin(c.sys.sid, |c.sys.a.requested|, x);
    NoPayloads();
    assert Flatten(c.sys.a.requested) + [] == Flatten(c.sys.a.requested);
    MoreMessages(ss, x, c.b.piped);
    FlattenAppend(ss, [x]);
    FlattenOne(x);
    MessagesKept(c.a.sent, m, Whole(ss, c.b.piped));
    assert Upper(d.Flip());
  }

  lemma NoPayloads()
    ensures Flatten(Payloads([])) == []
  {
  }

  lemma MessagesKept(ms: seq<S.Message>, m: S.Message, k: nat)
    requires k <= |ms|
    ensures (ms + [m])[..k] == ms[..k]
  {
  }

  lemma RequestStep(c: Stack, d: Stack, ab: seq<Frame>, ba: seq<Frame>)
    requires Enabled(c, Request) && d == StepA(c, Request) && LeavesNoGap(c, AtA(Request))
    requires Good(c, ab, ba)
    ensures Good(d, ab, ba)
  {
    hide Inv, Begun, Flatten, S.Packets, Segment, UartQueue.Request, Sending, Fetching, Payloads;
    var f := c.a.toRequest[0];
    var e := Arq.Request(f.payload, |c.a.toRequest| == 1);
    FirstIsNext(c);
    assert Under(d, ab, ba) == Arq.StepA(Under(c, ab, ba), e);
    StepAKeeps(Under(c, ab, ba), e);
    RequestKeepsSending(c, d);
    SameFetching(c, d);
    SameUpper(c.Flip(), d.Flip());
  }

  lemma FirstIsNext(c: Stack)
    requires Sending(c) && c.a.toRequest != []
    ensures S.AllSendable(c.a.sent)
    ensures var f := c.a.toRequest[0];
            1 <= |f.payload| <= PACKAGE_DATA_MAX_SIZE &&
            f == Segment(c.sys.sid, |c.sys.a.requested| + 1, f.payload, |c.a.toRequest| == 1)
  {
    hide Flatten, S.Packets, Segment;
  }

  lemma RequestKeepsSending(c: Stack, d: Stack)
    requires Sending(c) && c.a.toRequest != []
    requires d.sys.sid == c.sys.sid && d.sys.a.requested == c.sys.a.requested + [c.a.toRequest[0].payload]
    requires d.a.sent == c.a.sent && d.a.toRequest == c.a.toRequest[1..]
    ensures Sending(d)
  {
    hide Flatten, S.Packets, Segment;
    var fs, f := c.a.toRequest, c.a.toRequest[0];
    assert forall i | 0 <= i < |fs[1..]| :: fs[1..][i] == fs[i + 1];
    assert Payloads(fs) == [f.payload] + Payloads(fs[1..]);
    FlattenAppend([f.payload], Payloads(fs[1..]));
    FlattenAppend(c.sys.a.requested, [f.payload]);
    Assoc(Flatten(c.sys.a.requested), Flatten([f.payload]), Flatten(Payloads(fs[1..])));
  }

  lemma SameFetching(c: Stack, d: Stack)
    requires S.AllSendable(c.a.sent) && d.a.sent == c.a.sent && d.b == c.b
    requires c.sys.b.ep.delivered <= d.sys.b.ep.delivered
    requires Fetching(c)
    ensures Fetching(d)
  {
    hide Flatten, Whole, Left;
    FlattenPrefix(c.sys.b.ep.delivered, d.sys.b.ep.delivered);
  }

  lemma LinkStep(c: Stack, d: Stack, ab: seq<Frame>, ba: seq<Frame>, e: Arq.Event)
    requires Enabled(c, OfLink(e)) && d == StepA(c, OfLink(e))
    requires Good(c, ab, ba)
    ensures Good(d, ab, ba)
  {
    hide Inv, Begun, Upper, SendPass, Clear, Response;
    var x := match e case Lose(i) => Arq.Lose(|ab| + i) case _ => e;
    if e.SendPkgs? {
      Assoc(ab, c.sys.ab, SendPass(c.sys.a.ep.link, e.expired).frames);
    } else if e.Lose? {
      LoseBehind(ab, c.sys.ab, e.i);
    }
    assert Under(d, ab, ba) == Arq.StepA(Under(c, ab, ba), x);
    StepAKeeps(Under(c, ab, ba), x);
    SameUpper(c, d);
    SameUpper(c.Flip(), d.Flip());
  }

  lemma LoseBehind(x: seq<Frame>, y: seq<Frame>, i: nat)
    requires i < |y|
    ensures (x + y)[..|x| + i] + (x + y)[|x| + i + 1..] == x + (y[..i] + y[i + 1..])
  {
  }

  lemma CarryStep(c: Stack, d: Stack, ab: seq<Frame>, ba: seq<Frame>, f: Frame)
    requires Enabled(c, Carry) && d == StepA(c, Carry) && f == c.sys.ab[0]
    requires Good(c, ab, ba)
    ensures Good(d, ab + [f], ba)
  {
    hide Inv, Upper, Flatten, Frame.Encode;
    assert ab + [f] + c.sys.ab[1..] == ab + c.sys.ab;
    assert Under(d, ab + [f], ba) == Under(c, ab, ba);
    assert Encodings(ab + [f]) == Encodings(ab) + [f.Encode()];
    FlattenAppend(Encodings(ab), [f.Encode()]);
    FlattenOne(f.Encode());
    Assoc(c.b.readBuf, c.ab, f.Encode());
    assert (ab + [f])[0] == if ab == [] then f else ab[0];
    assert Upper(d) && Upper(d.Flip()) by { SameUpper(c, d); SameUpper(c.Flip(), d.Flip()); }
  }

  lemma SameUpper(c: Stack, d: Stack)
    requires Upper(c) && d.a.sent == c.a.sent && d.a.toRequest == c.a.toRequest && d.sys.sid == c.sys.sid
    requires d.sys.a.requested == c.sys.a.requested && c.sys.b.ep.delivered <= d.sys.b.ep.delivered
    requires d.b.piped == c.b.piped && d.b.ioBuf == c.b.ioBuf && d.b.log == c.b.log && d.b.failed == c.b.failed
    ensures Upper(d)
  {
    hide Flatten, Whole, Left, Segment;
    FlattenPrefix(c.sys.b.ep.delivered, d.sys.b.ep.delivered);
  }

  // ---- reading from the device ------------------------------------------------------------------------

  lemma {:induction false} Delivers(s: Arq.Sys, k: nat)
    requires Inv(s) && k <= |s.ba|
    ensures Inv(s.(a := s.a.(ep := ReceiveAll(s.a.ep, s.ba[..k])), ba := s.ba[k..]))
    ensures s.a.ep.delivered <= ReceiveAll(s.a.ep, s.ba[..k]).delivered
    decreases k
  {
    hide Inv, Receive;
    if k == 0 {
      assert s.ba[..0] == [] && s.ba[0..] == s.ba;
      assert s == s.(a := s.a.(ep := s.a.ep), ba := s.ba);
    } else {
      var t := Arq.StepA(s, Arq.Deliver);
      StepAKeeps(s, Arq.Deliver);
      ReceiveGrows(s.a.ep, s.ba[0]);
      assert s.ba[..k][0] == s.ba[0] && s.ba[..k][1..] == s.ba[1..][..k - 1];
      assert s.ba[1..][k - 1..] == s.ba[k..];
      Delivers(t, k - 1);
      assert t.(a := t.a.(ep := ReceiveAll(t.a.ep, t.ba[..k - 1])), ba := t.ba[k - 1..]) ==
             s.(a := s.a.(ep := ReceiveAll(s.a.ep, s.ba[..k])), ba := s.ba[k..]);
    }
  }

  lemma ReceiveGrows(ep: Endpoint, f: Frame)
    ensures ep.delivered <= Receive(ep, f).delivered
  {
    hide Response, Respond;
  }

  lemma ReadStep(c: Stack, d: Stack, ab: seq<Frame>, ba: seq<Frame>, n: nat) returns (left: seq<Frame>)
    requires Enabled(c, Read(n)) && d == StepA(c, Read(n))
    requires Good(c, ab, ba)
    ensures Good(d, ab, left)
  {
    hide Inv, Upper, Flatten, Frame.Encode, PackageProcess, ReceiveAll, Whole, Left, AllPlain;
    var s, m := Under(c, ab, ba), |c.a.readBuf| + n;
    var k := Whole(Encodings(ba), m);
    left := ba[k..];
    OnlyPlain(s, ba);
    CutSplits(Encodings(ba), m);
    ParseUpTo(ba, m, 0, c.sys.a.ep);
    assert ba[0..k] == ba[..k] && Encodings(ba[..k]) == Encodings(ba)[..k];
    assert c.a.readBuf + c.ba[..n] == Wire(ba)[..m];
    assert s.ba[..k] == ba[..k] && s.ba[k..] == left + c.sys.ba;
    Delivers(s, k);
    assert Under(d, ab, left) == s.(a := s.a.(ep := ReceiveAll(s.a.ep, s.ba[..k])), ba := s.ba[k..]);
    RestOfWire(ba, k, c.a.readBuf, c.ba, n, Left(Encodings(ba), m));
    assert left != [] ==> left[0] == ba[k];
    SameUpper(c, d);
    SameUpper(c.Flip(), d.Flip());
  }

  lemma OnlyPlain(s: Arq.Sys, ba: seq<Frame>)
    requires Inv(s) && ba <= s.ba
    ensures AllPlain(ba)
  {
    hide Tidy, FlowOf, Flow.Ok, Plain;
    forall i | 0 <= i < |ba| ensures Plain(ba[i]) {
      assert LinkFrame(s.sid, s.ba[i]);
    }
  }

  lemma RestOfWire(fs: seq<Frame>, k: nat, buf: seq<Byte>, coming: seq<Byte>, n: nat, part: seq<Byte>)
    requires k <= |fs| && n <= |coming| && Wire(fs) == buf + coming
    requires Wire(fs)[..|buf| + n] == Flatten(Encodings(fs)[..k]) + part
    ensures Wire(fs[k..]) == part + coming[n..]
  {
    hide Flatten, Frame.Encode;
    var ms := Encodings(fs);
    assert ms == ms[..k] + ms[k..];
    FlattenAppend(ms[..k], ms[k..]);
    assert Encodings(fs[k..]) == ms[k..];
    assert Wire(fs) == Flatten(ms[..k]) + part + coming[n..] by {
      assert (buf + coming)[|buf| + n..] == coming[n..];
      assert Wire(fs) == Wire(fs)[..|buf| + n] + Wire(fs)[|buf| + n..];
    }
    Assoc(Flatten(ms[..k]), part, coming[n..]);
    SamePrefix(Flatten(ms[..k]), Flatten(ms[k..]), part + coming[n..]);
  }

  // ---- reading from the socket pair -----------------------------------------------------------------------

  lemma FetchStep(c: Stack, d: Stack, ab: seq<Frame>, ba: seq<Frame>, n: nat)
    requires Enabled(c, Fetch(n)) && d == StepA(c, Fetch(n))
    requires Good(c, ab, ba)
    ensures Good(d, ab, ba)
  {
    hide Inv, Begun, Flatten, Whole, Left, S.Packets, S.Fetch, Takes, Segment;
    var u := c.Flip();
    var ss, piece := S.Packets(u.a.sent), Dispatched(c.sys)[c.a.piped..c.a.piped + n];
    assert Inv(Under(u, ba, ab)) by { GoodFlips(c, ab, ba); }
    DispatchedIsSent(u, ba, ab);
    assert piece == Flatten(ss)[c.a.piped..c.a.piped + n];
    S.PacketsAreTaken(u.a.sent);
    OneFetch(S.Fetch, u.a.sent, ss, c.a.piped, piece);
    JoinPrefix(u.a.sent, Whole(ss, c.a.piped), Whole(ss, c.a.piped + n));
    assert Under(d, ab, ba) == Under(c, ab, ba);
    assert Sending(c) && Sending(u);
    assert Sending(d.Flip());
    assert Fetching(d.Flip());
    assert Upper(d) by { SameUpper(c, d); }
  }

  // ---- every reachable state ----------------------------------------------------------------------------------

  lemma StepAIsGood(c: Stack, d: Stack, ab: seq<Frame>, ba: seq<Frame>, e: Event) returns (x: seq<Frame>, y: seq<Frame>)
    requires Enabled(c, e) && d == StepA(c, e) && LeavesNoGap(c, AtA(e))
    requires Good(c, ab, ba)
    ensures Good(d, x, y)
  {
    hide Good, StepA;
    x, y := ab, ba;
    match e {
      case Send(m) => SendStep(c, d, ab, ba, m);
      case Request => RequestStep(c, d, ab, ba);
      case OfLink(e) => LinkStep(c, d, ab, ba, e);
      case Carry =>
        CarryStep(c, d, ab, ba, c.sys.ab[0]);
        x := ab + [c.sys.ab[0]];
      case Read(n) => y := ReadStep(c, d, ab, ba, n);
      case Fetch(n) => FetchStep(c, d, ab, ba, n);
    }
  }

  lemma StepIsGood(c: Stack, d: Stack, ab: seq<Frame>, ba: seq<Frame>, act: Action) returns (x: seq<Frame>, y: seq<Frame>)
    requires CanStep(c, act) && d == Step(c, act) && LeavesNoGap(c, act)
    requires Good(c, ab, ba)
    ensures Good(d, x, y)
  {
    hide Good, StepA, Enabled;
    match act {
      case AtA(e) => x, y := StepAIsGood(c, d, ab, ba, e);
      case AtB(e) =>
        GoodFlips(c, ab, ba);
        y, x := StepAIsGood(c.Flip(), d.Flip(), ba, ab, e);
        GoodFlips(d.Flip(), y, x);
    }
  }

  lemma {:induction false} RunIsGood(c: Stack, d: Stack, ab: seq<Frame>, ba: seq<Frame>, acts: seq<Action>)
    returns (x: seq<Frame>, y: seq<Frame>)
    requires Feasible(c, acts) && d == Run(c, acts)
    requires Good(c, ab, ba)
    ensures Good(d, x, y)
    decreases |acts|
  {
    hide Good, Step, CanStep, LeavesNoGap;
    if acts == [] {
      x, y := ab, ba;
    } else {
      x, y := StepIsGood(c, Step(c, acts[0]), ab, ba, acts[0]);
      x, y := RunIsGood(Step(c, acts[0]), d, x, y, acts[1..]);
    }
  }

  lemma BeginIsGood(sid: U32)
    ensures Good(Begin(sid), [], [])
  {
    hide Inv;
    StartIsFine(sid);
    assert [] + Begin(sid).sys.ab == [] && [] + Begin(sid).sys.ba == [];
    assert Under(Begin(sid), [], []) == Arq.Start(sid);
    WholeOfNone([]);
  }

  // Over every run of two ends that send one message after the other over a line that may lose packages
  // and delivers the rest in pieces of any size, as long as nothing is requested of a session given up
  // while the peer lacks a payload (LeavesNoGap): the commands each session has dispatched are a prefix
  // of the messages the other end sent, neither session ever refuses its stream, and each buffer has
  // room for the next read when every packet fits one.
  lemma DispatchedIsPrefixOfSent(sid: U32, acts: seq<Action>)
    requires Feasible(Begin(sid), acts)
    ensures var c := Run(Begin(sid), acts);
            && c.b.log <= c.a.sent && c.a.log <= c.b.sent
            && !c.a.failed && !c.b.failed
            && S.AllSendable(c.a.sent) && S.AllSendable(c.b.sent)
            && (S.AllFit(c.a.sent) ==> |c.b.ioBuf| < S.HDC_SOCKETPAIR_SIZE)
            && (S.AllFit(c.b.sent) ==> |c.a.ioBuf| < S.HDC_SOCKETPAIR_SIZE)
  {
    hide Run, Feasible, Inv, Begun, Sending, Flatten, Whole, Left, S.Packet;
    BeginIsGood(sid);
    var c := Run(Begin(sid), acts);
    var x, y := RunIsGood(Begin(sid), c, [], [], acts);
    RoomLeft(c);
    RoomLeft(c.Flip());
  }

  lemma RoomLeft(c: Stack)
    requires Upper(c)
    ensures S.AllSendable(c.a.sent)
    ensures S.AllFit(c.a.sent) ==> |c.b.ioBuf| < S.HDC_SOCKETPAIR_SIZE
  {
    hide Flatten, Whole, Left, S.Packet, ToRequest;
    CutSplits(S.Packets(c.a.sent), c.b.piped);
  }

  // And nothing is missing once nothing is on its way: no package waits for its slot or in the queue,
  // the session was not given up, and the peer's session has read all it was handed.
  lemma NothingOnTheWayMeansAllDispatched(sid: U32, acts: seq<Action>)
    requires Feasible(Begin(sid), acts)
    ensures var c := Run(Begin(sid), acts);
            && c.a.toRequest == []
            && (forall i | 0 <= i < |c.sys.a.ep.link.pkgs| :: c.sys.a.ep.link.pkgs[i].response)
            && !c.sys.a.cleared
            && c.b.piped == |Flatten(c.sys.b.ep.delivered)|
            ==> c.b.log == c.a.sent
  {
    hide Run, Feasible, Flatten, Whole, Left, S.Packet, S.Packets, Begun, Inv, ToRequest;
    BeginIsGood(sid);
    var c := Run(Begin(sid), acts);
    var x, y := RunIsGood(Begin(sid), c, [], [], acts);
    if && c.a.toRequest == []
       && (forall i | 0 <= i < |c.sys.a.ep.link.pkgs| :: c.sys.a.ep.link.pkgs[i].response)
       && !c.sys.a.cleared
       && c.b.piped == |Flatten(c.sys.b.ep.delivered)|
    {
      AcceptedAll(Under(c, x, y));
      NoPayloads();
      assert Flatten(c.sys.a.requested) + [] == Flatten(c.sys.a.requested);
      WholeOfAll(S.Packets(c.a.sent));
      assert c.a.sent[..|c.a.sent|] == c.a.sent;
    }
  }

  lemma AcceptedAll(s: Arq.Sys)
    requires Inv(s) && !s.a.cleared
    requires forall i | 0 <= i < |s.a.ep.link.pkgs| :: s.a.ep.link.pkgs[i].response
    ensures s.b.ep.delivered == s.a.requested
  {
    hide LinkFrames, LinkFrame, Flow.OnWire, Flow.Acks, Flow.Queue, AcksOf;
    OnlyResponsesQueued(s.sid, s.a.ep.link.pkgs);
  }
}

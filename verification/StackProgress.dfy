/** The whole serial stack gets on: what one end sends, the other can be brought to dispatch. */
module StackProgress {
  import opened Bytes
  import opened UartHead
  import opened UartReceive
  import opened UartParser
  import opened UartSegment
  import opened UartAnswers
  import opened ArqSafety
  import opened ArqProgress
  import opened ArqSettle
  import opened SerialStack
  import Arq
  import Framing
  import S = Session

  // ---- runs put together -------------------------------------------------------------------------

  lemma RunOne(c: Stack, x: Action)
    requires CanStep(c, x) && LeavesNoGap(c, x)
    ensures Feasible(c, [x]) && Run(c, [x]) == Step(c, x)
  {
    hide CanStep, LeavesNoGap, Step;
    assert [x][1..] == [];
  }

  lemma {:induction false} RunAppend(c: Stack, xs: seq<Action>, ys: seq<Action>)
    requires Feasible(c, xs) && Feasible(Run(c, xs), ys)
    ensures Feasible(c, xs + ys) && Run(c, xs + ys) == Run(Run(c, xs), ys)
    decreases |xs|
  {
    hide CanStep, LeavesNoGap, Step;
    if xs == [] {
      assert xs + ys == ys;
    } else {
      assert (xs + ys)[1..] == xs[1..] + ys;
      RunAppend(Step(c, xs[0]), xs[1..], ys);
    }
  }

  // ---- the line between packages --------------------------------------------------------------------

  // Nothing is half carried or half read.
  predicate Clean(c: Stack) {
    c.ab == [] && c.ba == [] && c.a.readBuf == [] && c.b.readBuf == []
  }

  lemma CarryIs(c: Stack)
    requires Clean(c) && c.sys.ba != []
    ensures CanStep(c, AtB(Carry)) && LeavesNoGap(c, AtB(Carry))
    ensures Step(c, AtB(Carry)) == c.(sys := c.sys.(ba := c.sys.ba[1..]), ba := c.sys.ba[0].Encode())
  {
    hide Frame.Encode;
    assert [] + c.sys.ba[0].Encode() == c.sys.ba[0].Encode();
  }

  lemma ReadIs(c: Stack, f: Frame)
    requires c.ba == f.Encode() && c.a.readBuf == [] && Plain(f)
    ensures var read := AtA(Read(|f.Encode()|));
            && CanStep(c, read) && LeavesNoGap(c, read)
            && Step(c, read) == c.(sys := c.sys.(a := c.sys.a.(ep := Receive(c.sys.a.ep, f))), ba := [])
  {
    hide PackageProcess, Frame.Encode, Receive, Plain;
    WholePackage(f, c.sys.a.ep);
    assert [] + c.ba[..|f.Encode()|] == f.Encode() && c.ba[|f.Encode()|..] == [];
  }

  // A package carried and read whole is one that the link delivers.
  lemma CarriedAndRead(c: Stack) returns (acts: seq<Action>)
    requires Clean(c) && Inv(c.sys) && c.sys.ba != []
    ensures Feasible(c, acts) && Run(c, acts) == c.(sys := Arq.StepA(c.sys, Arq.Deliver))
  {
    hide Inv, Frame.Encode, Receive, Step, CanStep, LeavesNoGap, Run, Feasible, Plain;
    var f := c.sys.ba[0];
    var carry, read := AtB(Carry), AtA(Read(|f.Encode()|));
    FirstIsPlain(c.sys);
    CarryIs(c);
    var d := Step(c, carry);
    ReadIs(d, f);
    RunOne(c, carry);
    RunOne(d, read);
    RunAppend(c, [carry], [read]);
    acts := [carry] + [read];
  }

  lemma FirstIsPlain(s: Arq.Sys)
    requires Inv(s) && s.ba != []
    ensures Plain(s.ba[0])
  {
    hide Tidy, FlowOf, ArqFlow.Flow.Ok, Plain;
    assert LinkFrame(s.sid, s.ba[0]);
  }

  lemma {:induction false} FlipRun(c: Stack, acts: seq<Action>)
    requires Feasible(c.Flip(), acts)
    ensures Feasible(c, FlipAll(acts)) && Run(c, FlipAll(acts)) == Run(c.Flip(), acts).Flip()
    decreases |acts|
  {
    hide Enabled, StepA;
    if acts != [] {
      FlipStep(c, acts[0]);
      assert FlipAll(acts)[1..] == FlipAll(acts[1..]);
      FlipRun(Step(c, FlipOne(acts[0])), acts[1..]);
    }
  }

  function FlipOne(act: Action): Action {
    match act
    case AtA(e) => AtB(e)
    case AtB(e) => AtA(e)
  }

  function FlipAll(acts: seq<Action>): (r: seq<Action>)
    ensures |r| == |acts|
  {
    seq(|acts|, i requires 0 <= i < |acts| => FlipOne(acts[i]))
  }

  lemma FlipStep(c: Stack, act: Action)
    requires CanStep(c.Flip(), act) && LeavesNoGap(c.Flip(), act)
    ensures CanStep(c, FlipOne(act)) && LeavesNoGap(c, FlipOne(act))
    ensures Step(c, FlipOne(act)).Flip() == Step(c.Flip(), act)
  {
    hide Enabled, StepA;
    assert c.Flip().Flip() == c;
  }

  // ---- what the link can do the stack can do -------------------------------------------------------

  lemma QuietAtA(c: Stack, e: Arq.Event) returns (acts: seq<Action>)
    requires Clean(c) && Inv(c.sys) && Arq.Enabled(c.sys, e) && (e.SendPkgs? || e.Deliver?)
    ensures Feasible(c, acts) && Run(c, acts) == c.(sys := Arq.StepA(c.sys, e))
  {
    hide Inv, Clean, Arq.StepA;
    if e.Deliver? {
      acts := CarriedAndRead(c);
    } else {
      acts := [AtA(OfLink(e))];
      RunOne(c, acts[0]);
    }
  }

  lemma InvFlips(s: Arq.Sys)
    requires Inv(s)
    ensures Inv(s.Flip())
  {
    hide Tidy, LinkFrames, FlowOf, ArqFlow.Flow.Ok;
  }

  lemma OneQuiet(c: Stack, act: Arq.Action) returns (acts: seq<Action>)
    requires Clean(c) && Inv(c.sys) && Arq.CanStep(c.sys, act) && Quiet(act)
    ensures Feasible(c, acts) && Run(c, acts) == c.(sys := Arq.Step(c.sys, act))
  {
    hide Inv, Arq.StepA, Arq.Enabled, Run, Feasible;
    match act
    case AtA(e) => acts := QuietAtA(c, e);
    case AtB(e) =>
      InvFlips(c.sys);
      var flipped := QuietAtA(c.Flip(), e);
      FlipRun(c, flipped);
      acts := FlipAll(flipped);
  }

  lemma {:induction false} Simulates(c: Stack, acts: seq<Arq.Action>) returns (steps: seq<Action>)
    requires Clean(c) && Inv(c.sys) && Arq.Feasible(c.sys, acts) && AllQuiet(acts)
    ensures Feasible(c, steps) && Run(c, steps) == c.(sys := Arq.Run(c.sys, acts))
    decreases |acts|
  {
    hide Inv, Arq.Step, Arq.CanStep;
    if acts == [] {
      steps := [];
    } else {
      assert Quiet(acts[0]);
      var first := OneQuiet(c, acts[0]);
      StepKeeps(c.sys, acts[0]);
      var more := Simulates(c.(sys := Arq.Step(c.sys, acts[0])), acts[1..]);
      RunAppend(c, first, more);
      steps := first + more;
    }
  }

  // ---- one message -----------------------------------------------------------------------------------

  // The packages still to be requested are those numbered next.
  predicate Pending(c: Stack) {
    var fs, k := c.a.toRequest, |c.sys.a.requested|;
    forall i | 0 <= i < |fs| ::
      && 1 <= |fs[i].payload| <= PACKAGE_DATA_MAX_SIZE
      && fs[i] == Segment(c.sys.sid, k + 1 + i, fs[i].payload, i == |fs| - 1)
  }

  // The package in front gets its slot, goes over and is answered.
  lemma OnePackage(c: Stack) returns (acts: seq<Action>)
    requires Clean(c) && Inv(c.sys) && Settled(c.sys) && Pending(c) && c.a.toRequest != []
    ensures Feasible(c, acts)
    ensures var d, fs := Run(c, acts), c.a.toRequest;
            && d == c.(sys := d.sys, a := c.a.(toRequest := fs[1..]))
            && Inv(d.sys) && Settled(d.sys) && d.sys.sid == c.sys.sid
            && d.sys.a.requested == c.sys.a.requested + [fs[0].payload] && d.sys.b.ep.delivered == d.sys.a.requested
  {
    hide Inv, Settled, Run, Feasible, CanBeSent;
    var f, fs := c.a.toRequest[0], c.a.toRequest;
    var ask := Arq.Request(f.payload, |fs| == 1);
    AskedFor(c.sys, f.payload, |fs| == 1);
    var d := RequestIs(c, ask);
    SendableIsHope(d.sys);
    var quiet := SenderSettles(d.sys);
    QuietKeeps(d.sys, quiet);
    SameSession(d.sys, quiet);
    var steps := Simulates(d, quiet);
    RunOne(c, AtA(Request));
    RunAppend(c, [AtA(Request)], steps);
    acts := [AtA(Request)] + steps;
  }

  lemma RequestIs(c: Stack, ask: Arq.Event) returns (d: Stack)
    requires Settled(c.sys) && Pending(c) && c.a.toRequest != []
    requires ask == Arq.Request(c.a.toRequest[0].payload, |c.a.toRequest| == 1) && Arq.Enabled(c.sys, ask)
    ensures CanStep(c, AtA(Request)) && LeavesNoGap(c, AtA(Request)) && d == Step(c, AtA(Request))
    ensures d == c.(sys := Arq.StepA(c.sys, ask), a := c.a.(toRequest := c.a.toRequest[1..]))
  {
    hide UartQueue.Request;
    assert c.a.toRequest[0] == Segment(c.sys.sid, |c.sys.a.requested| + 1, c.a.toRequest[0].payload, |c.a.toRequest| == 1);
    d := Step(c, AtA(Request));
  }

  lemma {:induction false} SameSession(s: Arq.Sys, acts: seq<Arq.Action>)
    requires Arq.Feasible(s, acts)
    ensures Arq.Run(s, acts).sid == s.sid
    decreases |acts|
  {
    hide Arq.Enabled;
    if acts != [] {
      OneStepSameSession(s, acts[0]);
      SameSession(Arq.Step(s, acts[0]), acts[1..]);
    }
  }

  lemma OneStepSameSession(s: Arq.Sys, act: Arq.Action)
    requires Arq.CanStep(s, act)
    ensures Arq.Step(s, act).sid == s.sid
  {
    hide UartQueue.Request, UartQueue.SendPass, Receive, UartQueue.Response, UartQueue.Clear;
  }

  lemma {:induction false} AllPackages(c: Stack) returns (acts: seq<Action>)
    requires Clean(c) && Inv(c.sys) && Settled(c.sys) && Pending(c) && c.sys.b.ep.delivered == c.sys.a.requested
    ensures Feasible(c, acts)
    ensures var d := Run(c, acts);
            && d == c.(sys := d.sys, a := c.a.(toRequest := []))
            && Inv(d.sys) && Settled(d.sys) && d.sys.sid == c.sys.sid
            && d.sys.a.requested == c.sys.a.requested + Payloads(c.a.toRequest) && d.sys.b.ep.delivered == d.sys.a.requested
    decreases |c.a.toRequest|
  {
    hide Inv, Settled, Run, Feasible, Clean, Pending, Payloads;
    var fs := c.a.toRequest;
    if fs == [] {
      acts := [];
      RunNone(c);
      NoPayloads(c.sys.a.requested);
    } else {
      var first := OnePackage(c);
      var d := Run(c, first);
      PendingRest(c, d);
      var more := AllPackages(d);
      RunAppend(c, first, more);
      acts := first + more;
      PayloadsCons(fs);
      assert c.sys.a.requested + [fs[0].payload] + Payloads(fs[1..]) == c.sys.a.requested + Payloads(fs);
    }
  }

  lemma RunNone(c: Stack)
    ensures Feasible(c, []) && Run(c, []) == c
  {
  }

  lemma NoPayloads(s: seq<seq<Byte>>)
    ensures s + Payloads([]) == s
  {
  }

  lemma PayloadsCons(fs: seq<Frame>)
    requires fs != []
    ensures Payloads(fs) == [fs[0].payload] + Payloads(fs[1..])
  {
  }

  lemma PendingRest(c: Stack, d: Stack)
    requires Pending(c) && Clean(c) && c.a.toRequest != []
    requires d == c.(sys := d.sys, a := c.a.(toRequest := c.a.toRequest[1..]))
    requires d.sys.sid == c.sys.sid && d.sys.a.requested == c.sys.a.requested + [c.a.toRequest[0].payload]
    ensures Pending(d) && Clean(d)
  {
    hide Segment;
    var fs, rest := c.a.toRequest, d.a.toRequest;
    forall i | 0 <= i < |rest| ensures 1 <= |rest[i].payload| <= PACKAGE_DATA_MAX_SIZE
      && rest[i] == Segment(d.sys.sid, |d.sys.a.requested| + 1 + i, rest[i].payload, i == |rest| - 1)
    {
      assert rest[i] == fs[i + 1];
    }
  }

  // Both ends at rest, and all that was sent dispatched.
  predicate AtRest(c: Stack) {
    && Clean(c) && Inv(c.sys) && Settled(c.sys) && c.a.toRequest == [] && c.sys.b.ep.delivered == c.sys.a.requested
    && c.b.piped == |Flatten(c.sys.b.ep.delivered)| && c.b.ioBuf == [] && !c.b.failed && c.b.log == c.a.sent
  }

  lemma MessageArrives(c: Stack, m: S.Message) returns (acts: seq<Action>)
    requires AtRest(c) && S.Sendable(m) && |S.Packet(m)| <= S.HDC_SOCKETPAIR_SIZE
    ensures Feasible(c, acts)
    ensures AtRest(Run(c, acts)) && Run(c, acts).a.sent == c.a.sent + [m]
  {
    hide Inv, Settled, Run, Feasible, S.Packet, Cut, Flatten, Pending, Payloads;
    var send := AtA(Send(m));
    RunOne(c, send);
    var d := Step(c, send);
    PacketIsPending(c, m);
    var carry := AllPackages(d);
    var e := Run(d, carry);
    var packet := S.Packet(m);
    PayloadsJoin(c.sys.sid, |c.sys.a.requested|, packet);
    FlattenAppend(c.sys.a.requested, Payloads(Cut(c.sys.sid, |c.sys.a.requested|, packet)));
    var fetch := AtB(Fetch(|packet|));
    var g := FetchIs(e, m, Flatten(c.sys.a.requested));
    RunOne(e, fetch);
    RunAppend(d, carry, [fetch]);
    RunAppend(c, [send], carry + [fetch]);
    acts := [send] + (carry + [fetch]);
  }

  lemma PacketIsPending(c: Stack, m: S.Message)
    requires S.Sendable(m)
    ensures Pending(c.(a := c.a.(sent := c.a.sent + [m], toRequest := Cut(c.sys.sid, |c.sys.a.requested|, S.Packet(m)))))
  {
    hide Cut, S.Packet, Segment;
    var fs, k := Cut(c.sys.sid, |c.sys.a.requested|, S.Packet(m)), |c.sys.a.requested|;
    forall i | 0 <= i < |fs|
      ensures 1 <= |fs[i].payload| <= PACKAGE_DATA_MAX_SIZE && fs[i] == Segment(c.sys.sid, k + 1 + i, fs[i].payload, i == |fs| - 1)
    {
      PackageShape(c.sys.sid, k, S.Packet(m), i);
      NumberedPackage(c.sys.sid, k, S.Packet(m), i);
    }
  }

  // The session reads the packet as a whole and dispatches its message.
  lemma FetchIs(c: Stack, m: S.Message, before: seq<Byte>) returns (d: Stack)
    requires S.Sendable(m) && |S.Packet(m)| <= S.HDC_SOCKETPAIR_SIZE
    requires Flatten(c.sys.b.ep.delivered) == before + S.Packet(m) && c.b.piped == |before| && c.b.ioBuf == [] && !c.b.failed
    ensures var fetch := AtB(Fetch(|S.Packet(m)|));
            CanStep(c, fetch) && LeavesNoGap(c, fetch) && d == Step(c, fetch)
    ensures d == c.(b := c.b.(piped := |Flatten(c.sys.b.ep.delivered)|, log := c.b.log + [m]))
  {
    hide S.Packet, S.OnRead;
    var packet := S.Packet(m);
    assert (before + packet)[|before|..|before| + |packet|] == packet;
    S.WholePacket(m, []);
    assert packet + [] == packet && [] + packet == packet && [m] + [] == [m];
    assert S.Fetch([]) == Framing.Fetched([], [], true);
    d := Step(c, AtB(Fetch(|packet|)));
  }

  // From the beginning, and from every moment of rest: whatever messages one end sends, each with a packet
  // that fits the read buffer, some run without loss brings the other end to dispatch all of them.
  lemma {:induction false} AllMessagesArrive(c: Stack, ms: seq<S.Message>) returns (acts: seq<Action>)
    requires AtRest(c) && S.AllSendable(ms) && S.AllFit(ms)
    ensures Feasible(c, acts)
    ensures var d := Run(c, acts); AtRest(d) && d.a.sent == c.a.sent + ms && d.b.log == c.b.log + ms
    decreases |ms|
  {
    hide AtRest, S.Packet;
    if ms == [] {
      acts := [];
      assert c.a.sent + ms == c.a.sent && c.b.log + ms == c.b.log;
    } else {
      var first := MessageArrives(c, ms[0]);
      var more := AllMessagesArrive(Run(c, first), ms[1..]);
      RunAppend(c, first, more);
      acts := first + more;
      assert c.a.sent + [ms[0]] + ms[1..] == c.a.sent + ms;
      RestIsAll(c);
      RestIsAll(Run(c, acts));
    }
  }

  lemma RestIsAll(c: Stack)
    requires AtRest(c)
    ensures c.b.log == c.a.sent
  {
  }

  lemma BeginsAtRest(sid: U32)
    ensures AtRest(Begin(sid))
  {
    hide Tidy, LinkFrames, ArqFlow.Flow.Ok;
    StartIsFine(sid);
    NothingFlat();
  }

  lemma NothingFlat()
    ensures Flatten<Byte>([]) == []
  {
  }
}

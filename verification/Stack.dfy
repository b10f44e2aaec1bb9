/** The whole serial stack as a state machine: Send, the link, bytes on the line, both read buffers. */
module SerialStack {
  import opened Bytes
  import opened UartHead
  import opened UartReceive
  import opened UartSegment
  import opened Arq
  import S = Session

  // What one end holds beside its link: the messages it was asked to send, the packages of the current
  // SendUARTData call that still wait for their slot, the read buffer of the device, and its session:
  // how many of the dispatched bytes it has read from the socket pair, what it buffers, the commands it
  // has dispatched, and whether it refused the stream.
  datatype End = End(
    sent: seq<S.Message>,
    toRequest: seq<Frame>,
    readBuf: seq<Byte>,
    piped: nat,
    ioBuf: seq<Byte>,
    log: seq<S.Message>,
    failed: bool)

  // The link with the packages the line has not begun to carry, and the bytes it is carrying.
  datatype Stack = Stack(sys: Sys, a: End, b: End, ab: seq<Byte>, ba: seq<Byte>) {
    function Flip(): Stack {
      Stack(sys.Flip(), b, a, ba, ab)
    }
  }

  function Begin(sid: U32): Stack {
    var e := End([], [], [], 0, [], [], false);
    Stack(Start(sid), e, e, [], [])
  }

  // What can happen at end a; by Flip the same happens at end b.
  datatype Event =
    | Send(message: S.Message)   // the session sends, one message after the other
    | Request                    // the next package gets its slot
    | OfLink(event: Arq.Event)   // sending, loss of a whole package, a stray NAK, the end of the session
    | Carry                      // the line begins to carry the next package
    | Read(n: nat)               // the device read of a returns n bytes
    | Fetch(n: nat)              // the session of a reads n bytes from the socket pair

  function Dispatched(s: Sys): seq<Byte> {
    Flatten(s.a.ep.delivered)
  }

  predicate Enabled(c: Stack, e: Event) {
    match e
    case Send(m) => S.Sendable(m) && c.a.toRequest == []
    case Request =>
      c.a.toRequest != [] && c.a.toRequest[0].Sized() && c.sys.sid !in c.sys.a.ep.link.slots &&
      c.a.toRequest[0].head.sessionId == c.sys.sid
    case OfLink(e) => !e.Request? && !e.Deliver? && Arq.Enabled(c.sys, e)
    case Carry => c.sys.ab != []
    case Read(n) => n <= |c.ba|
    case Fetch(n) => c.a.piped + n <= |Dispatched(c.sys)| && |c.a.ioBuf| + n <= S.HDC_SOCKETPAIR_SIZE && !c.a.failed
  }

  function StepA(c: Stack, e: Event): Stack
    requires Enabled(c, e)
  {
    match e
    case Send(m) =>
      c.(a := c.a.(sent := c.a.sent + [m], toRequest := Cut(c.sys.sid, |c.sys.a.requested|, S.Packet(m))))
    case Request =>
      var f := c.a.toRequest[0];
      var node := c.sys.a.(ep := c.sys.a.ep.(link := UartQueue.Request(c.sys.a.ep.link, f, true)),
                           requested := c.sys.a.requested + [f.payload]);
      c.(sys := c.sys.(a := node), a := c.a.(toRequest := c.a.toRequest[1..]))
    case OfLink(e) => c.(sys := Arq.StepA(c.sys, e))
    case Carry => c.(sys := c.sys.(ab := c.sys.ab[1..]), ab := c.ab + c.sys.ab[0].Encode())
    case Read(n) =>
      var r := PackageProcess(c.a.readBuf + c.ba[..n], c.sys.a.ep);
      c.(sys := c.sys.(a := c.sys.a.(ep := r.ep)), a := c.a.(readBuf := r.rest), ba := c.ba[n..])
    case Fetch(n) =>
      var r := S.Fetch(c.a.ioBuf + Dispatched(c.sys)[c.a.piped..c.a.piped + n]);
      c.(a := c.a.(piped := c.a.piped + n, ioBuf := r.rest, log := c.a.log + r.log, failed := !r.ok))
  }

  datatype Action = AtA(event: Event) | AtB(event: Event)

  predicate CanStep(c: Stack, act: Action) {
    match act
    case AtA(e) => Enabled(c, e)
    case AtB(e) => Enabled(c.Flip(), e)
  }

  function Step(c: Stack, act: Action): Stack
    requires CanStep(c, act)
  {
    match act
    case AtA(e) => StepA(c, e)
    case AtB(e) => StepA(c.Flip(), e).Flip()
  }

  // Of a session that was given up or stopped nothing is requested until the peer's link has dispatched
  // all that was requested before.
  predicate LeavesNoGap(c: Stack, act: Action) {
    match act
    case AtA(e) => e.Request? ==> !c.sys.a.cleared || |c.sys.b.ep.delivered| == |c.sys.a.requested|
    case AtB(e) => e.Request? ==> !c.sys.b.cleared || |c.sys.a.ep.delivered| == |c.sys.b.requested|
  }

  predicate Feasible(c: Stack, acts: seq<Action>)
    decreases |acts|
  {
    acts == [] || (CanStep(c, acts[0]) && LeavesNoGap(c, acts[0]) && Feasible(Step(c, acts[0]), acts[1..]))
  }

  function Run(c: Stack, acts: seq<Action>): Stack
    requires Feasible(c, acts)
    decreases |acts|
  {
    if acts == [] then c else Run(Step(c, acts[0]), acts[1..])
  }
}

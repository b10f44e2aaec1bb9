/** Two ends of a serial line that loses packages: the stop-and-wait link as a state machine. */
module Arq {
  import opened Bytes
  import opened UartHead
  import opened UartQueue
  import opened UartReceive
  import opened UartSegment

  // One end: its link state, every payload it has handed to the link so far, and whether its
  // session was given up or stopped. Data packages are numbered 1, 2, ... in that order.
  datatype Node = Node(ep: Endpoint, requested: seq<seq<Byte>>, cleared: bool)

  // Two ends of session `sid` and the packages under way from a to b and from b to a.
  datatype Sys = Sys(sid: U32, a: Node, b: Node, ab: seq<Frame>, ba: seq<Frame>) {
    function Flip(): Sys {
      Sys(sid, b, a, ba, ab)
    }
  }

  function Start(sid: U32): Sys {
    var n := Node(NEW_ENDPOINT, [], false);
    Sys(sid, n, n, [], [])
  }

  // What can happen at end a. By Flip the same happens at end b.
  datatype Event =
    | Request(payload: seq<Byte>, last: bool)  // the next package of SendUARTData gets its slot
    | SendPkgs(expired: seq<bool>)             // one pass of the sending thread
    | Lose(i: nat)                             // the line drops a package sent by a
    | Deliver                                  // the next package sent by b arrives
    | StrayNak(packageIndex: U32)              // a NAK the peer never sends by itself
    | Stop                                     // the session is stopped from above

  predicate Enabled(s: Sys, e: Event) {
    match e
    case Request(payload, last) =>
      1 <= |payload| <= PACKAGE_DATA_MAX_SIZE && s.sid !in s.a.ep.link.slots
    case SendPkgs(expired) => |expired| == |s.a.ep.link.pkgs|
    case Lose(i) => i < |s.ab|
    case Deliver => s.ba != []
    case StrayNak(_) => true
    case Stop => true
  }

  function StepA(s: Sys, e: Event): Sys
    requires Enabled(s, e)
  {
    var ep := s.a.ep;
    match e
    case Request(payload, last) =>
      var f := Segment(s.sid, |s.a.requested| + 1, payload, last);
      s.(a := s.a.(ep := ep.(link := UartQueue.Request(ep.link, f, true)), requested := s.a.requested + [payload]))
    case SendPkgs(expired) =>
      var r := SendPass(ep.link, expired);
      s.(a := s.a.(ep := ep.(link := r.link), cleared := s.a.cleared || r.gaveUp.Some?), ab := s.ab + r.frames)
    case Lose(i) => s.(ab := s.ab[..i] + s.ab[i + 1..])
    case Deliver => s.(a := s.a.(ep := Receive(ep, s.ba[0])), ba := s.ba[1..])
    case StrayNak(k) =>
      s.(a := s.a.(ep := ep.(link := Response(ep.link, NewHead(s.sid, PKG_OPTION_NAK, 0, k)))))
    case Stop => s.(a := s.a.(ep := ep.(link := Clear(ep.link, s.sid)), cleared := true))
  }

  datatype Action = AtA(event: Event) | AtB(event: Event)

  predicate CanStep(s: Sys, act: Action) {
    match act
    case AtA(e) => Enabled(s, e)
    case AtB(e) => Enabled(s.Flip(), e)
  }

  function Step(s: Sys, act: Action): Sys
    requires CanStep(s, act)
  {
    match act
    case AtA(e) => StepA(s, e)
    case AtB(e) => StepA(s.Flip(), e).Flip()
  }

  // The guard under which the link keeps its promise: of a session that was given up or stopped nothing
  // is requested until the peer has dispatched all that was requested before.
  predicate LeavesNoGap(s: Sys, act: Action) {
    match act
    case AtA(e) => e.Request? ==> !s.a.cleared || |s.b.ep.delivered| == |s.a.requested|
    case AtB(e) => e.Request? ==> !s.b.cleared || |s.a.ep.delivered| == |s.b.requested|
  }

  predicate Feasible(s: Sys, acts: seq<Action>)
    decreases |acts|
  {
    acts == [] || (CanStep(s, acts[0]) && Feasible(Step(s, acts[0]), acts[1..]))
  }

  predicate Guarded(s: Sys, acts: seq<Action>)
    requires Feasible(s, acts)
    decreases |acts|
  {
    acts == [] || (LeavesNoGap(s, acts[0]) && Guarded(Step(s, acts[0]), acts[1..]))
  }

  function Run(s: Sys, acts: seq<Action>): Sys
    requires Feasible(s, acts)
    decreases |acts|
  {
    if acts == [] then s else Run(Step(s, acts[0]), acts[1..])
  }

  // ---- runs put together ----------------------------------------------------------

  lemma RunOne(s: Sys, x: Action)
    requires CanStep(s, x)
    ensures Feasible(s, [x]) && Run(s, [x]) == Step(s, x)
  {
    hide CanStep, Step;
    assert [x][1..] == [];
  }

  lemma {:induction false} RunAppend(s: Sys, xs: seq<Action>, ys: seq<Action>)
    requires Feasible(s, xs) && Feasible(Run(s, xs), ys)
    ensures Feasible(s, xs + ys) && Run(s, xs + ys) == Run(Run(s, xs), ys)
    decreases |xs|
  {
    hide CanStep, Step;
    if xs == [] {
      assert xs + ys == ys;
    } else {
      assert (xs + ys)[1..] == xs[1..] + ys;
      RunAppend(Step(s, xs[0]), xs[1..], ys);
    }
  }

  lemma RunThree(s: Sys, x: Action, y: Action, z: Action)
    requires CanStep(s, x) && CanStep(Step(s, x), y) && CanStep(Step(Step(s, x), y), z)
    ensures Feasible(s, [x, y, z]) && Run(s, [x, y, z]) == Step(Step(Step(s, x), y), z)
  {
    hide CanStep, Step;
    RunOne(s, x);
    RunOne(Step(s, x), y);
    RunAppend(s, [x], [y]);
    RunOne(Step(Step(s, x), y), z);
    RunAppend(s, [x] + [y], [z]);
    assert [x] + [y] + [z] == [x, y, z];
  }
}

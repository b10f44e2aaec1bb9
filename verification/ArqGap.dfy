/**
 * What happens when SendUARTData goes on after its session was given up. OnTransferError leaves the device
 * open at the daemon's end only (src/daemon/daemon_uart.cpp:190-198); the host closes its port
 * (src/host/host_uart.cpp:634-656), so a package it still asks for does not reach the line.
 */
module ArqGap {
  import opened Bytes
  import opened UartHead
  import opened UartQueue
  import opened UartParser
  import opened UartSegment
  import opened Arq
  import opened ArqFlow
  import opened ArqSafety
  import opened ArqProgress
  import opened ArqSettle

  // ---- one more package after the session was given up ---------------------------------

  function NextPkg(s: Sys, payload: seq<Byte>): Pkg
    requires |payload| <= PACKAGE_DATA_MAX_SIZE
  {
    NewPkg(Segment(s.sid, |s.a.requested| + 1, payload, true))
  }

  // The receiver has not dispatched the number the next package gets.
  predicate NextIsNew(s: Sys) {
    s.b.ep.dispatched != (|s.a.requested| + 1) % TWO32
  }

  lemma NextIsData(s: Sys, payload: seq<Byte>)
    requires 1 <= |payload| <= PACKAGE_DATA_MAX_SIZE
    ensures var p := NextPkg(s, payload);
            && p.status == WaitSend && !p.response && p.retryChance == RETRY_CHANCE && p.sessionId == s.sid
            && p.frame.IsData() && p.frame.payload == payload
            && p.frame.head.packageIndex == (|s.a.requested| + 1) % TWO32 && p.frame.head.sessionId == s.sid
  {
    hide ToPkgIdentityString, Plain;
    SegmentIsPlain(s.sid, |s.a.requested| + 1, payload, true);
  }

  lemma FlowGivesNew(s: Sys)
    requires Inv(s)
    ensures NextIsNew(s)
    ensures |s.b.ep.delivered| <= |s.a.requested| && s.b.ep.delivered <= s.a.requested
  {
    hide Flow.Queue, Flow.OnWire, Flow.Acks, Flow.Settled, Tidy, LinkFrames, DataOf, AcksOf;
    var n := |s.a.requested|;
    Successive(n);
    if n > 0 {
      TwoApart(n - 1);
    }
  }

  lemma TwoApart(k: nat)
    ensures k % TWO32 != (k + 2) % TWO32
  {
  }

  lemma Requested(s: Sys, payload: seq<Byte>)
    requires s.a.ep.link.pkgs == [] && Enabled(s, Request(payload, true))
    ensures StepA(s, Request(payload, true)) ==
            s.(a := s.a.(ep := s.a.ep.(link := Link([NextPkg(s, payload)], s.a.ep.link.slots + {s.sid})),
                         requested := s.a.requested + [payload]))
  {
    hide ToPkgIdentityString, NewPkg;
  }

  lemma SentAlone(s: Sys, p: Pkg)
    requires s.a.ep.link.pkgs == [p] && p.status == WaitSend && !p.response
    ensures StepA(s, SendPkgs([false])) ==
            s.(a := s.a.(ep := s.a.ep.(link := s.a.ep.link.(pkgs := [Transmitted(p)]))), ab := s.ab + [p.frame])
  {
    assert [p][1..] == [] && [false][1..] == [];
    assert Scan([], {p.sessionId}, []) == Walk([], [], None);
    assert Scan([p], {}, [false]) == Walk([Transmitted(p)] + [], [p.frame] + [], None);
  }

  // Neither end is asked to send more.
  predicate AsksNothing(acts: seq<Action>) {
    forall i | 0 <= i < |acts| :: !acts[i].event.Request?
  }

  function LoseFirst(n: nat): (acts: seq<Action>)
    ensures |acts| == n && AsksNothing(acts)
  {
    seq(n, _ => AtA(Lose(0)))
  }

  lemma {:induction false} FirstAreLost(s: Sys, n: nat)
    requires n <= |s.ab|
    ensures Feasible(s, LoseFirst(n)) && Run(s, LoseFirst(n)) == s.(ab := s.ab[n..])
    decreases n
  {
    if n == 0 {
      assert s.ab[0..] == s.ab;
    } else {
      assert s.ab[..0] + s.ab[1..] == s.ab[1..];
      assert LoseFirst(n)[1..] == LoseFirst(n - 1);
      FirstAreLost(s.(ab := s.ab[1..]), n - 1);
      assert s.ab[1..][n - 1..] == s.ab[n..];
    }
  }

  lemma Taken(s: Sys, f: Frame)
    requires s.ab != [] && s.ab[0] == f && f.IsData() && f.payload != [] && s.b.ep.dispatched != f.head.packageIndex
    ensures CanStep(s, AtB(Deliver))
    ensures var t := Step(s, AtB(Deliver));
            t.b.ep.delivered == s.b.ep.delivered + [f.payload] && t.a == s.a
  {
    hide Respond;
  }

  // The next package is queued behind acknowledgements alone, so one pass sends it.
  lemma NextIsSent(s: Sys, payload: seq<Byte>) returns (i: nat)
    requires s.sid !in s.a.ep.link.slots && Tidy(s.sid, s.a.ep.link) && QueuedData(s.a.ep.link.pkgs) == []
    requires 1 <= |payload| <= PACKAGE_DATA_MAX_SIZE
    ensures var t := StepA(s, Request(payload, true));
            var act := SendPkgs(NoneExpired(|t.a.ep.link.pkgs|));
            && Enabled(t, act)
            && var u := StepA(t, act);
            && u.b == s.b && u.a.requested == s.a.requested + [payload]
            && i < |u.ab| && u.ab[i] == NextPkg(s, payload).frame
  {
    hide Entry, Scan, QueuedData, QueuedAcks, DataOf, UartQueue.Request, LinkFrame, ToPkgIdentityString;
    var l, f := s.a.ep.link, Segment(s.sid, |s.a.requested| + 1, payload, true);
    NextIsLinkFrame(s, payload);
    RequestQueue(s.sid, l, f);
    var t := StepA(s, Request(payload, true));
    OnlyOneIsData(s.sid, l.pkgs);
    NextWaits(l, f);
    ScanSends(s.sid, t.a.ep.link.pkgs, {});
    var w := Scan(t.a.ep.link.pkgs, {}, NoneExpired(|t.a.ep.link.pkgs|));
    DataAreMembers(w.frames, Checked(f));
    var k :| 0 <= k < |w.frames| && w.frames[k] == Checked(f);
    i := |s.ab| + k;
  }

  lemma NextIsLinkFrame(s: Sys, payload: seq<Byte>)
    requires 1 <= |payload| <= PACKAGE_DATA_MAX_SIZE
    ensures var f := Segment(s.sid, |s.a.requested| + 1, payload, true);
            f.IsData() && f.head.sessionId == s.sid && f.Sized() && LinkFrame(s.sid, Checked(f))
  {
    hide Plain;
    SegmentIsPlain(s.sid, |s.a.requested| + 1, payload, true);
  }

  lemma NextWaits(l: Link, f: Frame)
    requires f.Sized() && f.IsData() && f.head.sessionId !in l.slots
    requires forall k | 0 <= k < |l.pkgs| :: l.pkgs[k].response
    ensures DataWaits(UartQueue.Request(l, f, true).pkgs)
  {
    hide ToPkgIdentityString;
  }

  // Whatever is on the line or queued, a further package can be sent, everything before it lost, and
  // then it arrives and is dispatched next.
  lemma OneMoreArrives(s: Sys, payload: seq<Byte>) returns (acts: seq<Action>)
    requires s.sid !in s.a.ep.link.slots && Tidy(s.sid, s.a.ep.link) && QueuedData(s.a.ep.link.pkgs) == []
    requires NextIsNew(s) && 1 <= |payload| <= PACKAGE_DATA_MAX_SIZE
    ensures var t := StepA(s, Request(payload, true));
            && Feasible(t, acts) && AsksNothing(acts)
            && Run(t, acts).a.requested == s.a.requested + [payload]
            && Run(t, acts).b.ep.delivered == s.b.ep.delivered + [payload]
  {
    hide Tidy, QueuedData, StepA, Run, Feasible;
    var t := StepA(s, Request(payload, true));
    var pass := AtA(SendPkgs(NoneExpired(|t.a.ep.link.pkgs|)));
    var i := NextIsSent(s, payload);
    var u := Step(t, pass);
    FirstAreLost(u, i);
    var v := Run(u, LoseFirst(i));
    NextIsData(s, payload);
    Taken(v, NextPkg(s, payload).frame);
    RunOne(v, AtB(Deliver));
    RunAppend(u, LoseFirst(i), [AtB(Deliver)]);
    RunCons(t, pass, LoseFirst(i) + [AtB(Deliver)]);
    acts := [pass] + (LoseFirst(i) + [AtB(Deliver)]);
  }

  // ---- exactly when a package may be asked for -----------------------------------------------

  // Whatever happens after the request, if the guard holds from then on, b dispatches a prefix of what
  // a was asked to send.
  ghost predicate SafeToRequest(s: Sys, payload: seq<Byte>, last: bool)
    requires Enabled(s, Request(payload, last))
  {
    var t := StepA(s, Request(payload, last));
    forall acts | Feasible(t, acts) && Guarded(t, acts) :: Run(t, acts).b.ep.delivered <= Run(t, acts).a.requested
  }

  lemma {:induction false} NoRequestIsGuarded(s: Sys, acts: seq<Action>)
    requires Feasible(s, acts) && AsksNothing(acts)
    ensures Guarded(s, acts)
    decreases |acts|
  {
    hide Step, CanStep;
    if acts != [] {
      assert !acts[0].event.Request?;
      NoRequestIsGuarded(Step(s, acts[0]), acts[1..]);
    }
  }

  lemma GuardedRequestIsSafe(s: Sys, payload: seq<Byte>, last: bool)
    requires Inv(s) && Enabled(s, Request(payload, last)) && |s.b.ep.delivered| == |s.a.requested|
    ensures SafeToRequest(s, payload, last)
  {
    hide Inv, Run, Feasible, Guarded;
    StepKeeps(s, AtA(Request(payload, last)));
    var t := StepA(s, Request(payload, last));
    forall acts | Feasible(t, acts) && Guarded(t, acts)
      ensures Run(t, acts).b.ep.delivered <= Run(t, acts).a.requested
    {
      RunKeeps(t, acts);
      FlowFacts(Run(t, acts));
    }
  }

  // With a payload still missing at b, the next one can overtake it.
  lemma GapIsUnsafe(s: Sys, payload: seq<Byte>)
    requires Inv(s) && Enabled(s, Request(payload, true)) && |s.b.ep.delivered| < |s.a.requested|
    requires payload != s.a.requested[|s.b.ep.delivered|]
    ensures !SafeToRequest(s, payload, true)
  {
    hide Inv, Run, Feasible, Guarded, AsksNothing, StepA, NextIsNew, Tidy, QueuedData;
    FlowGivesNew(s);
    FreeSlotNoData(s);
    var acts := OneMoreArrives(s, payload);
    var t := StepA(s, Request(payload, true));
    NoRequestIsGuarded(t, acts);
    assert Run(t, acts).b.ep.delivered[|s.b.ep.delivered|] == payload;
  }

  lemma FreeSlotNoData(s: Sys)
    requires Inv(s) && s.sid !in s.a.ep.link.slots
    ensures Tidy(s.sid, s.a.ep.link) && QueuedData(s.a.ep.link.pkgs) == []
  {
    hide Flow.Ok, LinkFrames, Entry, QueuedData;
  }

  // In any state of the link, with anything on the line: whichever package comes next, asking for it
  // keeps the promise exactly if b has dispatched all that was requested before.
  lemma RequestIsSafeIff(s: Sys)
    requires Inv(s) && s.sid !in s.a.ep.link.slots
    ensures |s.b.ep.delivered| == |s.a.requested| <==>
            forall payload, last | Enabled(s, Request(payload, last)) :: SafeToRequest(s, payload, last)
  {
    hide Inv, SafeToRequest;
    FlowFacts(s);
    if |s.b.ep.delivered| == |s.a.requested| {
      forall payload, last | Enabled(s, Request(payload, last)) ensures SafeToRequest(s, payload, last) {
        GuardedRequestIsSafe(s, payload, last);
      }
    } else {
      var missing := s.a.requested[|s.b.ep.delivered|];
      var payload: seq<Byte> := if missing == [0] then [1] else [0];
      assert payload != missing;
      GapIsUnsafe(s, payload);
      assert Enabled(s, Request(payload, true));
    }
  }

  // The session of a was given up or stopped: nothing of a is queued or under way.
  predicate Abandoned(s: Sys) {
    && s.a.cleared && s.a.ep.link.pkgs == [] && s.sid !in s.a.ep.link.slots && s.ab == []
  }

  // ---- such a state is reached by losing a package five times --------------------------------

  // The only package of a, sent once and not answered; nothing is under way to b.
  predicate Waiting(s: Sys, p: Pkg) {
    && s.a.ep.link.pkgs == [p] && p.status == WaitResponse && !p.response && p.sessionId == s.sid
    && s.ab == []
  }

  function RetryRound(): seq<Action> {
    [AtA(SendPkgs([true])), AtA(SendPkgs([false])), AtA(Lose(0))]
  }

  lemma TimedOut(s: Sys, p: Pkg)
    requires s.a.ep.link.pkgs == [p] && p.status == WaitResponse && p.retryChance > 0
    ensures StepA(s, SendPkgs([true])) ==
            s.(a := s.a.(ep := s.a.ep.(link := s.a.ep.link.(pkgs := [p.(status := WaitSend, retryChance := p.retryChance - 1)]))))
  {
    assert [p][1..] == [];
    var w := Scan([p], {}, [true]);
    assert w.pkgs == [p.(status := WaitSend, retryChance := p.retryChance - 1)];
    assert s.ab + w.frames == s.ab;
  }

  lemma OneRetry(s: Sys, p: Pkg)
    requires Waiting(s, p) && p.retryChance > 0
    ensures Feasible(s, RetryRound())
    ensures var t := Run(s, RetryRound());
            && Waiting(t, Transmitted(p.(status := WaitSend, retryChance := p.retryChance - 1)))
            && t.a.requested == s.a.requested && t.a.cleared == s.a.cleared && t.sid == s.sid && t.b == s.b && t.ba == s.ba
  {
    var q := p.(status := WaitSend, retryChance := p.retryChance - 1);
    assert CanStep(s, AtA(SendPkgs([true])));
    TimedOut(s, p);
    var s1 := StepA(s, SendPkgs([true]));
    SentAlone(s1, q);
    var s2 := StepA(s1, SendPkgs([false]));
    assert s2.ab == [q.frame];
    assert s2.ab[..0] + s2.ab[0 + 1..] == [];
    RunThree(s, AtA(SendPkgs([true])), AtA(SendPkgs([false])), AtA(Lose(0)));
  }

  lemma GivenUp(s: Sys, p: Pkg)
    requires Waiting(s, p) && p.retryChance == 0
    ensures CanStep(s, AtA(SendPkgs([true])))
    ensures var t := Step(s, AtA(SendPkgs([true])));
            Abandoned(t) && t.a.requested == s.a.requested && t.b == s.b && t.sid == s.sid
  {
    var w := Scan([p], {}, [true]);
    assert w == Walk([p], [], Some(s.sid));
    assert [p][1..] == [];
    assert [p][0].DataOf(s.sid);
    assert HasData([p], s.sid);
    assert Without([p], s.sid) == Without([], s.sid) == [];
  }

  // Every retry is lost.
  lemma {:induction false} LastChance(s: Sys, p: Pkg) returns (acts: seq<Action>, q: Pkg)
    requires Waiting(s, p)
    ensures Feasible(s, acts) && q.retryChance == 0
    ensures var t := Run(s, acts);
            && Waiting(t, q) && t.a.requested == s.a.requested && t.a.cleared == s.a.cleared
            && t.sid == s.sid && t.b == s.b && t.ba == s.ba
    decreases p.retryChance
  {
    hide Step, CanStep, Waiting, Run, Feasible;
    if p.retryChance == 0 {
      acts, q := [], p;
      RunNone(s);
    } else {
      OneRetry(s, p);
      var more;
      more, q := LastChance(Run(s, RetryRound()), Transmitted(p.(status := WaitSend, retryChance := p.retryChance - 1)));
      acts := RetryRound() + more;
      RunAppend(s, RetryRound(), more);
    }
  }

  lemma RunNone(s: Sys)
    ensures Feasible(s, []) && Run(s, []) == s
  {
  }

  lemma AllRetriesLost(s: Sys, p: Pkg) returns (acts: seq<Action>)
    requires Waiting(s, p)
    ensures Feasible(s, acts)
    ensures var t := Run(s, acts);
            Abandoned(t) && t.a.requested == s.a.requested && t.b == s.b && t.sid == s.sid
  {
    hide Step, CanStep, Abandoned, Waiting, Run, Feasible;
    var lost, q := LastChance(s, p);
    var t := Run(s, lost);
    GivenUp(t, q);
    RunOne(t, AtA(SendPkgs([true])));
    RunAppend(s, lost, [AtA(SendPkgs([true]))]);
    acts := lost + [AtA(SendPkgs([true]))];
  }

  lemma FirstIsSent(sid: U32, payload: seq<Byte>) returns (acts: seq<Action>, p: Pkg)
    requires 1 <= |payload| <= PACKAGE_DATA_MAX_SIZE
    ensures Feasible(Start(sid), acts)
    ensures var t := Run(Start(sid), acts);
            && t.sid == sid && t.a.ep.link.pkgs == [p] && p.status == WaitResponse && !p.response && p.sessionId == sid
            && p.frame.IsData() && p.frame.payload == payload && p.frame.head.packageIndex == 1
            && p.frame.head.sessionId == sid && t.ab == [p.frame] && t.ba == [] && t.b == Start(sid).b
            && t.a.requested == [payload] && !t.a.cleared
  {
    var s := Start(sid);
    NextIsData(s, payload);
    Requested(s, payload);
    var s1 := StepA(s, Request(payload, true));
    var q := NextPkg(s, payload);
    SentAlone(s1, q);
    p := Transmitted(q);
    acts := [AtA(Request(payload, true)), AtA(SendPkgs([false]))];
    RunOne(s, acts[0]);
    RunOne(s1, acts[1]);
    RunAppend(s, [acts[0]], [acts[1]]);
    assert [acts[0]] + [acts[1]] == acts;
  }

  // So the order promised by the link fails on a line that loses one package five times, if the
  // sender then goes on with its buffer: the receiver dispatches the second payload as the first.
  lemma OrderLostAfterGiveUp(sid: U32, first: seq<Byte>, second: seq<Byte>) returns (acts: seq<Action>)
    requires 1 <= |first| <= PACKAGE_DATA_MAX_SIZE && 1 <= |second| <= PACKAGE_DATA_MAX_SIZE && first != second
    ensures Feasible(Start(sid), acts)
    ensures var t := Run(Start(sid), acts);
            t.a.requested == [first, second] && t.b.ep.delivered == [second]
  {
    hide Run, Feasible;
    var s := Start(sid);
    var begin, p := FirstIsSent(sid, first);
    var s1 := Run(s, begin);
    assert s1.ab[..0] + s1.ab[0 + 1..] == [];
    RunOne(s1, AtA(Lose(0)));
    var lost := AllRetriesLost(Step(s1, AtA(Lose(0))), p);
    RunAppend(s, begin, [AtA(Lose(0))]);
    begin := begin + [AtA(Lose(0))];
    RunAppend(s, begin, lost);
    var t := Run(s, begin + lost);
    assert Tidy(t.sid, t.a.ep.link) && QueuedData(t.a.ep.link.pkgs) == [] by {
      EmptyQueue();
    }
    var more := OneMoreArrives(t, second);
    var next := AtA(Request(second, true));
    RunCons(t, next, more);
    RunAppend(s, begin + lost, [next] + more);
    acts := begin + lost + ([next] + more);
  }

  // ---- delivered, and still given up -----------------------------------------------------------

  // b's only queued package, an acknowledgement, is sent and lost.
  lemma AnswerIsLost(s: Sys, p: Pkg)
    requires s.b.ep.link.pkgs == [p] && p.response && p.status == WaitSend && s.ba == []
    ensures var acts := [AtB(SendPkgs([false])), AtB(Lose(0))];
            && Feasible(s, acts)
            && Run(s, acts) == s.(b := s.b.(ep := s.b.ep.(link := s.b.ep.link.(pkgs := []))))
  {
    var r := s.Flip();
    assert [p][1..] == [] && [false][1..] == [];
    assert Scan([], {}, []) == Walk([], [], None);
    assert Scan([p], {}, [false]) == Walk([], [p.frame] + [], None);
    var one, two := AtB(SendPkgs([false])), AtB(Lose(0));
    assert CanStep(s, one);
    var t := Step(s, one);
    assert t.ba == [p.frame] && t.ba[..0] + t.ba[0 + 1..] == [];
    RunOne(s, one);
    RunOne(t, two);
    RunAppend(s, [one], [two]);
    assert [one] + [two] == [one, two];
  }

  // A run in which the package arrives and its acknowledgement and every retry are lost: b has dispatched
  // everything, the session is not given up yet, and still no run without loss can save it.
  lemma DeliveredWithoutHope(sid: U32, payload: seq<Byte>) returns (acts: seq<Action>)
    requires 1 <= |payload| <= PACKAGE_DATA_MAX_SIZE
    ensures Feasible(Start(sid), acts)
    ensures var t := Run(Start(sid), acts);
            t.b.ep.delivered == t.a.requested == [payload] && !t.a.cleared && !Hopeful(t)
  {
    hide Run, Feasible, Respond;
    var s := Start(sid);
    var begin, p := FirstIsSent(sid, payload);
    var s1 := Run(s, begin);
    Taken(s1, p.frame);
    RunOne(s1, AtB(Deliver));
    var s2 := Step(s1, AtB(Deliver));
    var ack := FirstAnswer(sid);
    assert s2.b.ep.link == Link([ack], {});
    AnswerIsLost(s2, ack);
    var lose := [AtB(SendPkgs([false])), AtB(Lose(0))];
    var s3 := Run(s2, lose);
    var more, q := LastChance(s3, p);
    RunAppend(s2, lose, more);
    RunCons(s1, AtB(Deliver), lose + more);
    RunAppend(s, begin, [AtB(Deliver)] + (lose + more));
    acts := begin + ([AtB(Deliver)] + (lose + more));
    NothingLeft(Run(s, acts), q);
  }

  lemma NothingLeft(s: Sys, p: Pkg)
    requires Waiting(s, p) && p.retryChance == 0 && s.ba == [] && s.b.ep.link.pkgs == []
    ensures !Hopeful(s)
  {
    assert !s.a.ep.link.pkgs[0].response && !Sendable(s.a.ep.link.pkgs[0]);
  }

  lemma FirstAnswer(sid: U32) returns (p: Pkg)
    ensures Respond(EMPTY_LINK, sid, 1, PKG_OPTION_ACK) == Link([p], {}) && p.response && p.status == WaitSend
  {
    hide ToPkgIdentityString;
    p := Respond(EMPTY_LINK, sid, 1, PKG_OPTION_ACK).pkgs[0];
  }
}

/** When the link can still bring over what it was asked to carry, and how soon. */
module ArqProgress {
  import opened Bytes
  import opened UartHead
  import opened UartQueue
  import opened UartReceive
  import opened UartParser
  import opened Arq
  import opened ArqFlow
  import opened ArqSafety

  // ---- steps in which nothing is lost, asked for or given up from outside -----------------------

  predicate Quiet(act: Action) {
    match act
    case AtA(e) => e.SendPkgs? || e.Deliver?
    case AtB(e) => e.SendPkgs? || e.Deliver?
  }

  predicate AllQuiet(acts: seq<Action>) {
    forall i | 0 <= i < |acts| :: Quiet(acts[i])
  }

  function Forward(s: Sys): Flow {
    FlowOf(s.a, s.b, s.ab, s.ba)
  }

  predicate Caught(s: Sys) {
    |s.b.ep.delivered| == |s.a.requested|
  }

  // The package requested last is on the line.
  predicate Coming(s: Sys) {
    exists i :: 0 <= i < |s.ab| && Forward(s).Current(s.ab[i])
  }

  // It can be sent, or sent again.
  predicate Sendable(p: Pkg) {
    !p.response && (p.status == WaitSend || p.retryChance > 0)
  }

  predicate Alive(s: Sys) {
    Caught(s) || Coming(s) || exists i :: 0 <= i < |s.a.ep.link.pkgs| && Sendable(s.a.ep.link.pkgs[i])
  }

  // ---- one package arrives at b -----------------------------------------------------------------

  lemma FlowFacts(s: Sys)
    requires Inv(s)
    ensures |s.b.ep.delivered| <= |s.a.requested| <= |s.b.ep.delivered| + 1
    ensures s.b.ep.delivered <= s.a.requested && s.b.ep.dispatched == |s.b.ep.delivered| % TWO32
    ensures forall i | 0 <= i < |s.a.requested| :: s.a.requested[i] != []
    ensures |QueuedData(s.a.ep.link.pkgs)| <= 1
    ensures forall i | 0 <= i < |QueuedData(s.a.ep.link.pkgs)| :: Forward(s).Current(QueuedData(s.a.ep.link.pkgs)[i])
  {
    hide Flow.OnWire, Flow.Acks, Flow.Settled, Tidy, LinkFrames, Flow.Carries;
  }

  lemma OnTheLine(s: Sys, f: Frame)
    requires Inv(s) && f in s.ab && f.IsData()
    ensures Forward(s).Current(f) || Forward(s).Previous(f)
  {
    hide Flow.Payloads, Flow.Queue, Flow.Acks, Flow.Settled, Tidy, LinkFrames, Flow.Carries;
    DataAreMembers(s.ab, f);
  }

  // Until b has caught up, only the package requested last is new to it.
  lemma Arrives(s: Sys)
    requires Inv(s) && s.ab != [] && !Caught(s)
    ensures var t := Step(s, AtB(Deliver));
            && t.a == s.a && t.ab == s.ab[1..]
            && (if Forward(s).Current(s.ab[0]) then Caught(t) else t.b.ep.delivered == s.b.ep.delivered)
  {
    hide Inv, Settle;
    FlowFacts(s);
    var f, n := s.ab[0], |s.a.requested|;
    Successive(n - 1);
    CurrentXorPrevious(Forward(s), f);
    LineFrame(s, f);
    SettleDispatchesNothing(s.b.ep, f.head);
    if f.IsData() && !Forward(s).Current(f) {
      OnTheLine(s, f);
    }
  }

  lemma SettleDispatchesNothing(ep: Endpoint, h: Head)
    ensures Settle(ep, h).delivered == ep.delivered && Settle(ep, h).dispatched == ep.dispatched
  {
    hide Response, Respond;
  }

  lemma LineFrame(s: Sys, f: Frame)
    requires Inv(s) && f in s.ab
    ensures f.IsData() <==> f.payload != []
  {
    hide Tidy, FlowOf, Flow.Ok, Plain;
    var i :| 0 <= i < |s.ab| && s.ab[i] == f;
    assert LinkFrame(s.sid, s.ab[i]);
  }

  lemma {:induction false} DeliverAll(s: Sys) returns (acts: seq<Action>)
    requires Inv(s) && (Caught(s) || Coming(s))
    ensures Feasible(s, acts) && AllQuiet(acts) && |acts| <= |s.ab|
    ensures Caught(Run(s, acts)) && Run(s, acts).a == s.a
    decreases |s.ab|
  {
    hide Inv, Step, Forward, Flow.Current;
    if Caught(s) {
      acts := [];
    } else {
      var one := AtB(Deliver);
      var t := Step(s, one);
      Arrives(s);
      StepKeeps(s, one);
      SameForward(s, t);
      if !Caught(t) {
        var i :| 0 <= i < |s.ab| && Forward(s).Current(s.ab[i]);
        assert t.ab[i - 1] == s.ab[i];
      }
      var more := DeliverAll(t);
      acts := [one] + more;
      assert acts[1..] == more;
    }
  }

  // What is current depends on what was requested alone.
  lemma SameForward(s: Sys, t: Sys)
    requires t.a.requested == s.a.requested
    ensures forall f: Frame :: Forward(t).Current(f) == Forward(s).Current(f)
  {
  }

  // ---- a pass of the sender ------------------------------------------------------------------------

  function NoneExpired(n: nat): (e: seq<bool>)
    ensures |e| == n
  {
    seq(n, _ => false)
  }

  predicate Entries(sid: U32, pkgs: seq<Pkg>) {
    forall i | 0 <= i < |pkgs| :: Entry(sid, pkgs[i])
  }

  predicate DataWaits(pkgs: seq<Pkg>) {
    forall i | 0 <= i < |pkgs| :: !pkgs[i].response ==> pkgs[i].status == WaitSend
  }

  // With nothing timed out the one data package goes out, and every acknowledgement.
  lemma {:induction false} ScanSends(sid: U32, todo: seq<Pkg>, busy: set<U32>)
    requires Entries(sid, todo) && DataWaits(todo) && |QueuedData(todo)| <= 1
    requires sid !in busy || QueuedData(todo) == []
    ensures var w := Scan(todo, busy, NoneExpired(|todo|));
            DataOf(w.frames) == QueuedData(todo) && w.gaveUp.None? && |w.frames| <= |todo|
    decreases |todo|
  {
    hide Entry, LinkFrame, DataOf, AcksOf, FramesOf, QueuedData, QueuedAcks;
    if todo == [] {
      EmptyWire();
      EmptyQueue();
    } else {
      var p, rest := todo[0], todo[1..];
      assert Entry(sid, p);
      EntryUpdates(sid, p);
      assert todo == [p] + rest;
      ConsQueue(p, rest);
      assert NoneExpired(|todo|)[1..] == NoneExpired(|rest|);
      var busy1 := if p.response then busy else busy + {p.sessionId};
      ScanSends(sid, rest, busy1);
      var r := Scan(rest, busy1, NoneExpired(|rest|));
      ConsWire(p.frame, r.frames);
    }
  }

  function OnlyExpired(n: nat, i: nat): (e: seq<bool>)
    ensures |e| == n
  {
    seq(n, k => k == i)
  }

  // The data package timed out with a chance left is put back; the acknowledgements before it go out.
  lemma {:induction false} ScanRetries(sid: U32, todo: seq<Pkg>, busy: set<U32>, i: nat)
    requires Entries(sid, todo) && i < |todo| && |QueuedData(todo)| <= 1
    requires !todo[i].response && todo[i].status == WaitResponse && todo[i].retryChance > 0
    ensures var w := Scan(todo, busy, OnlyExpired(|todo|, i));
            && w.gaveUp.None? && |w.frames| + |w.pkgs| == |todo| && DataWaits(w.pkgs)
            && exists k :: 0 <= k < |w.pkgs| && Sendable(w.pkgs[k])
    decreases |todo|
  {
    hide Entry, LinkFrame, DataOf, AcksOf, FramesOf, QueuedData, QueuedAcks;
    var p, rest := todo[0], todo[1..];
    var e := OnlyExpired(|todo|, i);
    assert Entry(sid, p);
    EntryUpdates(sid, p);
    assert todo == [p] + rest;
    ConsQueue(p, rest);
    if i == 0 {
      assert e[0];
      OnlyOneIsData(sid, rest);
      assert Scan(todo, busy, e).pkgs[0].status == WaitSend;
    } else {
      NoDataMember(sid, rest, i - 1);
      assert p.response;
      assert e[1..] == OnlyExpired(|rest|, i - 1);
      ScanRetries(sid, rest, busy, i - 1);
      assert Scan(todo, busy, e).pkgs == Scan(rest, busy, e[1..]).pkgs;
    }
  }

  lemma OnlyOneIsData(sid: U32, pkgs: seq<Pkg>)
    requires Entries(sid, pkgs) && QueuedData(pkgs) == []
    ensures forall k | 0 <= k < |pkgs| :: pkgs[k].response
  {
    forall k | 0 <= k < |pkgs| ensures pkgs[k].response {
      if !pkgs[k].response {
        NoDataMember(sid, pkgs, k);
      }
    }
  }

  lemma NoDataMember(sid: U32, pkgs: seq<Pkg>, k: nat)
    requires Entries(sid, pkgs) && k < |pkgs| && !pkgs[k].response
    ensures pkgs[k].frame in QueuedData(pkgs) && QueuedData(pkgs) != []
  {
    hide LinkFrame;
    assert Entry(sid, pkgs[k]);
    assert FramesOf(pkgs)[k] == pkgs[k].frame;
    DataAreMembers(FramesOf(pkgs), pkgs[k].frame);
  }

  lemma TidyEntries(s: Sys)
    requires Inv(s)
    ensures Entries(s.sid, s.a.ep.link.pkgs)
  {
    hide Entry, Flow.Ok, LinkFrames;
  }

  // ---- progress ---------------------------------------------------------------------------------------

  // A data package that waits to be sent is sent and brought over.
  lemma SendOn(s: Sys) returns (acts: seq<Action>)
    requires Inv(s) && DataWaits(s.a.ep.link.pkgs)
    requires Caught(s) || Coming(s) || QueuedData(s.a.ep.link.pkgs) != []
    ensures Feasible(s, acts) && AllQuiet(acts) && |acts| <= 1 + |s.ab| + |s.a.ep.link.pkgs|
    ensures Caught(Run(s, acts)) && Run(s, acts).a.requested == s.a.requested
  {
    hide Inv, Scan, QueuedData, DataOf, Flow.Current, Forward, Run, Feasible;
    var l := s.a.ep.link;
    var one := AtA(SendPkgs(NoneExpired(|l.pkgs|)));
    FlowFacts(s);
    TidyEntries(s);
    ScanSends(s.sid, l.pkgs, {});
    var w := Scan(l.pkgs, {}, NoneExpired(|l.pkgs|));
    var t := Step(s, one);
    assert t.ab == s.ab + w.frames && t.a.requested == s.a.requested && t.b == s.b;
    StepKeeps(s, one);
    SameForward(s, t);
    if QueuedData(l.pkgs) != [] {
      var f := QueuedData(l.pkgs)[0];
      DataAreMembers(w.frames, f);
      var k :| 0 <= k < |w.frames| && w.frames[k] == f;
      assert t.ab[|s.ab| + k] == f;
    } else if Coming(s) {
      var i :| 0 <= i < |s.ab| && Forward(s).Current(s.ab[i]);
      assert t.ab[i] == s.ab[i];
    }
    var more := DeliverAll(t);
    acts := [one] + more;
    RunCons(s, one, more);
  }

  lemma RunCons(s: Sys, one: Action, more: seq<Action>)
    requires CanStep(s, one) && Feasible(Step(s, one), more)
    ensures Feasible(s, [one] + more) && Run(s, [one] + more) == Run(Step(s, one), more)
  {
    hide CanStep, Step;
    assert ([one] + more)[1..] == more;
  }

  lemma RetryPass(s: Sys, i: nat)
    requires Inv(s) && i < |s.a.ep.link.pkgs|
    requires var p := s.a.ep.link.pkgs[i]; !p.response && p.status == WaitResponse && p.retryChance > 0
    ensures var act := AtA(SendPkgs(OnlyExpired(|s.a.ep.link.pkgs|, i)));
            && CanStep(s, act)
            && var t := Step(s, act);
            && t.a.requested == s.a.requested && t.a.cleared == s.a.cleared && DataWaits(t.a.ep.link.pkgs)
            && t.b == s.b && t.ba == s.ba
            && |t.ab| + |t.a.ep.link.pkgs| == |s.ab| + |s.a.ep.link.pkgs|
            && exists k :: 0 <= k < |t.a.ep.link.pkgs| && Sendable(t.a.ep.link.pkgs[k])
  {
    hide Inv, Scan, QueuedData;
    FlowFacts(s);
    TidyEntries(s);
    ScanRetries(s.sid, s.a.ep.link.pkgs, {}, i);
  }

  // One that timed out with a chance left is put back first.
  lemma RetryOn(s: Sys, i: nat) returns (acts: seq<Action>)
    requires Inv(s) && i < |s.a.ep.link.pkgs|
    requires var p := s.a.ep.link.pkgs[i]; !p.response && p.status == WaitResponse && p.retryChance > 0
    ensures Feasible(s, acts) && AllQuiet(acts) && |acts| <= 2 + |s.ab| + |s.a.ep.link.pkgs|
    ensures Caught(Run(s, acts)) && Run(s, acts).a.requested == s.a.requested
  {
    hide Inv, Scan, QueuedData, DataOf, Flow.Current, Forward, Run, Feasible, Step, CanStep, Caught;
    var one := AtA(SendPkgs(OnlyExpired(|s.a.ep.link.pkgs|, i)));
    RetryPass(s, i);
    StepKeeps(s, one);
    var t := Step(s, one);
    var k :| 0 <= k < |t.a.ep.link.pkgs| && Sendable(t.a.ep.link.pkgs[k]);
    TidyEntries(t);
    NoDataMember(t.sid, t.a.ep.link.pkgs, k);
    var more := SendOn(t);
    acts := [one] + more;
    RunCons(s, one, more);
  }

  // A loss-free continuation, no longer than two passes of the sender and a delivery of everything on
  // the line and in the queue, after which b has dispatched all that a requested.
  lemma LinkProgresses(s: Sys) returns (acts: seq<Action>)
    requires Inv(s) && Alive(s)
    ensures Feasible(s, acts) && AllQuiet(acts) && |acts| <= 2 + |s.ab| + |s.a.ep.link.pkgs|
    ensures Run(s, acts).a.requested == s.a.requested && Run(s, acts).b.ep.delivered == s.a.requested
  {
    hide Inv, Scan, QueuedData, DataOf, Flow.Current, Forward, Run, Feasible, Step;
    if Caught(s) || Coming(s) {
      acts := DeliverAll(s);
    } else {
      var l := s.a.ep.link;
      var i :| 0 <= i < |l.pkgs| && Sendable(l.pkgs[i]);
      TidyEntries(s);
      FlowFacts(s);
      NoDataMember(s.sid, l.pkgs, i);
      if l.pkgs[i].status == WaitSend {
        OneWaitsAllWait(s.sid, l.pkgs, i);
        acts := SendOn(s);
      } else {
        acts := RetryOn(s, i);
      }
    }
    CaughtMeansAll(s, acts);
  }

  lemma OneWaitsAllWait(sid: U32, pkgs: seq<Pkg>, i: nat)
    requires Entries(sid, pkgs) && |QueuedData(pkgs)| <= 1
    requires i < |pkgs| && !pkgs[i].response && pkgs[i].status == WaitSend
    ensures DataWaits(pkgs)
  {
    hide Entry;
    forall k | 0 <= k < |pkgs| && !pkgs[k].response ensures pkgs[k].status == WaitSend {
      if k < i {
        TwoData(sid, pkgs, k, i);
      } else if i < k {
        TwoData(sid, pkgs, i, k);
      }
    }
  }

  lemma TwoData(sid: U32, pkgs: seq<Pkg>, i: nat, k: nat)
    requires Entries(sid, pkgs) && i < k < |pkgs| && !pkgs[i].response && !pkgs[k].response
    ensures |QueuedData(pkgs)| >= 2
  {
    hide LinkFrame, QueuedData, QueuedAcks;
    var x, y := pkgs[..k], pkgs[k + 1..];
    assert pkgs == x + [pkgs[k]] + y;
    QueueSplit(x, pkgs[k], y);
    assert Entry(sid, pkgs[k]);
    NoDataMember(sid, x, i);
  }

  lemma CaughtMeansAll(s: Sys, acts: seq<Action>)
    requires Inv(s) && Feasible(s, acts) && AllQuiet(acts)
    requires Caught(Run(s, acts)) && Run(s, acts).a.requested == s.a.requested
    ensures Run(s, acts).b.ep.delivered == s.a.requested
  {
    hide Inv, Run, Feasible;
    QuietIsGuarded(s, acts);
    RunKeeps(s, acts);
    FlowFacts(Run(s, acts));
  }

  lemma {:induction false} QuietIsGuarded(s: Sys, acts: seq<Action>)
    requires Feasible(s, acts) && AllQuiet(acts)
    ensures Guarded(s, acts)
    decreases |acts|
  {
    hide Step, CanStep;
    if acts != [] {
      assert Quiet(acts[0]);
      QuietIsGuarded(Step(s, acts[0]), acts[1..]);
    }
  }

  lemma QueuedIsMember(pkgs: seq<Pkg>, f: Frame) returns (i: nat)
    requires f in QueuedData(pkgs)
    ensures i < |pkgs| && pkgs[i].frame == f && f.IsData()
  {
    DataAreMembers(FramesOf(pkgs), f);
    i :| 0 <= i < |pkgs| && FramesOf(pkgs)[i] == f;
  }

  // A session not given up goes on as long as no data package has waited through its last chance.
  lemma ChancesLeft(s: Sys)
    requires Inv(s) && !s.a.cleared
    requires forall i | 0 <= i < |s.a.ep.link.pkgs| :: s.a.ep.link.pkgs[i].response || Sendable(s.a.ep.link.pkgs[i])
    ensures Alive(s)
  {
    hide Coming, Entry, LinkFrames, Flow.OnWire, Flow.Acks, QueuedData;
    var pkgs := s.a.ep.link.pkgs;
    if QueuedData(pkgs) != [] {
      var i := QueuedIsMember(pkgs, QueuedData(pkgs)[0]);
      TidyEntries(s);
      DataIsNoResponse(s.sid, pkgs, i);
    }
  }

  lemma DataIsNoResponse(sid: U32, pkgs: seq<Pkg>, i: nat)
    requires Entries(sid, pkgs) && i < |pkgs| && pkgs[i].frame.IsData()
    ensures !pkgs[i].response
  {
    hide LinkFrame;
    assert Entry(sid, pkgs[i]);
  }

  // ---- and no progress otherwise ------------------------------------------------------------------------

  // No data package, or one that waits for its response with no chance left.
  predicate Spent(p: Pkg) {
    p.response || (p.status == WaitResponse && p.retryChance == 0)
  }

  predicate AllSpent(pkgs: seq<Pkg>) {
    forall i | 0 <= i < |pkgs| :: Spent(pkgs[i])
  }

  predicate Stuck(s: Sys) {
    !Caught(s) && !Coming(s) && AllSpent(s.a.ep.link.pkgs)
  }

  lemma StuckIsNotAlive(s: Sys)
    ensures Stuck(s) <==> !Alive(s)
  {
    hide Forward, Flow.Current;
  }

  lemma {:induction false} ScanSpent(sid: U32, todo: seq<Pkg>, busy: set<U32>, expired: seq<bool>)
    requires |expired| == |todo| && Entries(sid, todo) && AllSpent(todo)
    ensures var w := Scan(todo, busy, expired); AllSpent(w.pkgs) && DataOf(w.frames) == []
    decreases |todo|
  {
    hide Entry, LinkFrame, DataOf, AcksOf, FramesOf;
    if todo == [] {
      EmptyWire();
    } else {
      var p, rest := todo[0], todo[1..];
      assert Entry(sid, p) && Spent(p);
      EntryUpdates(sid, p);
      if p.status == WaitResponse && expired[0] {
        EmptyWire();
      } else {
        var busy1 := if p.response then busy else busy + {p.sessionId};
        ScanSpent(sid, rest, busy1, expired[1..]);
        ConsWire(p.frame, Scan(rest, busy1, expired[1..]).frames);
      }
    }
  }

  lemma {:induction false} WithoutSpent(pkgs: seq<Pkg>, sid: U32)
    requires AllSpent(pkgs)
    ensures AllSpent(Without(pkgs, sid))
  {
    if pkgs != [] {
      WithoutSpent(pkgs[1..], sid);
    }
  }

  // What settling a package does to the queue adds no data package and changes none.
  lemma SettleSpent(ep: Endpoint, f: Frame)
    requires AllSpent(ep.link.pkgs) && (f.IsData() || f.head.HasOption(PKG_OPTION_ACK))
    ensures AllSpent(Receive(ep, f).link.pkgs)
  {
    hide ToPkgIdentityString, Checked;
  }

  lemma NotOnTheLine(s: Sys, f: Frame)
    requires !Coming(s) && (f.IsData() ==> f in s.ab)
    ensures !Forward(s).Current(f)
  {
    hide Forward;
    if f.IsData() {
      var j :| 0 <= j < |s.ab| && s.ab[j] == f;
      assert !Forward(s).Current(s.ab[j]);
    }
  }

  // The last package stays off the line when only others are added or taken.
  lemma StillNotComing(s: Sys, t: Sys)
    requires !Coming(s) && t.a.requested == s.a.requested
    requires forall f | f in t.ab && f.IsData() :: f in s.ab
    ensures !Coming(t)
  {
    hide Forward, Flow.Current;
    SameForward(s, t);
    forall i | 0 <= i < |t.ab| ensures !Forward(t).Current(t.ab[i]) {
      NotOnTheLine(s, t.ab[i]);
    }
  }

  lemma StuckStays(s: Sys, act: Action)
    requires Inv(s) && Stuck(s) && Quiet(act) && CanStep(s, act)
    ensures Stuck(Step(s, act)) && Step(s, act).a.requested == s.a.requested
  {
    hide Inv, Scan, Coming, Receive;
    var t := Step(s, act);
    match act
    case AtA(e) =>
      TidyEntries(s);
      if e.SendPkgs? {
        SpentPass(s, e.expired);
      } else {
        ArrivingAtA(s);
        StillNotComing(s, t);
      }
    case AtB(e) =>
      if e.SendPkgs? {
        StillNotComing(s, t);
      } else {
        Arrives(s);
        NotFirst(s);
        StillNotComing(s, t);
      }
  }

  lemma NotFirst(s: Sys)
    requires !Coming(s) && s.ab != []
    ensures !Forward(s).Current(s.ab[0])
  {
    hide Forward, Flow.Current;
  }

  lemma ArrivingAtA(s: Sys)
    requires Inv(s) && AllSpent(s.a.ep.link.pkgs) && s.ba != []
    ensures AllSpent(Step(s, AtA(Deliver)).a.ep.link.pkgs)
  {
    hide Receive, Tidy, FlowOf, Flow.Ok, Plain;
    assert LinkFrame(s.sid, s.ba[0]);
    SettleSpent(s.a.ep, s.ba[0]);
  }

  lemma SpentPass(s: Sys, expired: seq<bool>)
    requires Inv(s) && Stuck(s) && |expired| == |s.a.ep.link.pkgs|
    ensures Stuck(Step(s, AtA(SendPkgs(expired))))
  {
    hide Inv, Scan, Coming, DataOf, Without;
    var w, t := Scan(s.a.ep.link.pkgs, {}, expired), Step(s, AtA(SendPkgs(expired)));
    TidyEntries(s);
    ScanSpent(s.sid, s.a.ep.link.pkgs, {}, expired);
    if w.gaveUp.Some? {
      WithoutSpent(w.pkgs, w.gaveUp.value);
    }
    forall f | f in t.ab && f.IsData() ensures f in s.ab {
      DataAreMembers(w.frames, f);
    }
    StillNotComing(s, t);
  }

  lemma {:induction false} StuckForEver(s: Sys, acts: seq<Action>)
    requires Inv(s) && Stuck(s) && Feasible(s, acts) && AllQuiet(acts)
    ensures !Caught(Run(s, acts)) && Run(s, acts).a.requested == s.a.requested
    decreases |acts|
  {
    hide Inv, Step, CanStep, Coming;
    if acts != [] {
      assert Quiet(acts[0]);
      StuckStays(s, acts[0]);
      StepKeeps(s, acts[0]);
      StuckForEver(Step(s, acts[0]), acts[1..]);
    }
  }

  // The link brings over all that was requested, by some run in which nothing more is lost or asked
  // for, exactly if it has already, or the package requested last is on the line, or it can be sent or
  // sent again.
  lemma ProgressIff(s: Sys)
    requires Inv(s)
    ensures Alive(s) <==>
            exists acts :: Feasible(s, acts) && AllQuiet(acts) && Run(s, acts).b.ep.delivered == s.a.requested
  {
    hide Inv, Alive, Stuck, Feasible, Run, AllQuiet;
    StuckIsNotAlive(s);
    if Alive(s) {
      var acts := LinkProgresses(s);
    } else {
      forall acts | Feasible(s, acts) && AllQuiet(acts) ensures Run(s, acts).b.ep.delivered != s.a.requested {
        StuckForEver(s, acts);
      }
    }
  }
}

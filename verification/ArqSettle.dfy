/** When the sender gets its answer: the package out of its queue and its slot back, and so a whole buffer over. */
module ArqSettle {
  import opened Bytes
  import opened UartHead
  import opened UartQueue
  import opened UartReceive
  import opened UartParser
  import opened UartSegment
  import opened UartAnswers
  import opened Arq
  import opened ArqFlow
  import opened ArqSafety
  import opened ArqProgress

  // Nothing of a is queued, its slot is free, and its session was not given up: the next request can go.
  predicate Settled(s: Sys) {
    && !s.a.cleared && s.sid !in s.a.ep.link.slots
    && forall i | 0 <= i < |s.a.ep.link.pkgs| :: s.a.ep.link.pkgs[i].response
  }

  // An acknowledgement of the package requested last.
  predicate IsAnswer(s: Sys, f: Frame) {
    !f.IsData() && f.head.packageIndex == |s.a.requested| % TWO32
  }

  predicate AnswerOnLine(s: Sys) {
    exists i :: 0 <= i < |s.ba| && IsAnswer(s, s.ba[i])
  }

  predicate AnswerQueued(s: Sys) {
    exists i :: 0 <= i < |s.b.ep.link.pkgs| && IsAnswer(s, s.b.ep.link.pkgs[i].frame)
  }

  predicate CanBeSent(s: Sys) {
    exists i :: 0 <= i < |s.a.ep.link.pkgs| && Sendable(s.a.ep.link.pkgs[i])
  }

  // An answer can still come: it is on the line or queued, or the package it answers is on the line or
  // can be sent or sent again.
  predicate Hopeful(s: Sys) {
    !s.a.cleared && (Settled(s) || AnswerOnLine(s) || AnswerQueued(s) || Coming(s) || CanBeSent(s))
  }

  // ---- what is queued, as frames and as entries -----------------------------------------------

  lemma SettledMeans(s: Sys)
    requires Inv(s) && !s.a.cleared
    ensures Settled(s) <==> QueuedData(s.a.ep.link.pkgs) == []
    ensures Settled(s) ==> Caught(s)
  {
    hide Flow.OnWire, Flow.Acks, LinkFrames, QueuedData, Entry;
    TidyEntries(s);
    var pkgs := s.a.ep.link.pkgs;
    if QueuedData(pkgs) == [] {
      OnlyOneIsData(s.sid, pkgs);
    } else {
      var i := QueuedIsMember(pkgs, QueuedData(pkgs)[0]);
      DataIsNoResponse(s.sid, pkgs, i);
    }
  }

  lemma EntryIsHonest(sid: U32, p: Pkg)
    requires Entry(sid, p)
    ensures HonestEntry(p)
  {
    hide ToPkgIdentityString;
  }

  lemma InvIsHonest(s: Sys)
    requires Inv(s)
    ensures Honest(s.a.ep.link.pkgs) && Honest(s.b.ep.link.pkgs)
    ensures Entries(s.sid, s.a.ep.link.pkgs) && Entries(s.sid, s.b.ep.link.pkgs)
  {
    hide LinkFrames, FlowOf, Flow.Ok, KeyOf, QueuedData, HonestEntry, Entry;
    forall i | 0 <= i < |s.a.ep.link.pkgs| ensures HonestEntry(s.a.ep.link.pkgs[i]) {
      EntryIsHonest(s.sid, s.a.ep.link.pkgs[i]);
    }
    forall i | 0 <= i < |s.b.ep.link.pkgs| ensures HonestEntry(s.b.ep.link.pkgs[i]) {
      EntryIsHonest(s.sid, s.b.ep.link.pkgs[i]);
    }
  }

  // ---- the way back ------------------------------------------------------------------------------

  // What arrives at a: an answer takes the package out of the queue, anything else leaves it.
  lemma ArrivesAtA(s: Sys)
    requires Inv(s) && s.ba != []
    ensures var t := Step(s, AtA(Deliver));
            && t.sid == s.sid && t.b == s.b && t.ab == s.ab && t.ba == s.ba[1..]
            && t.a.requested == s.a.requested && t.a.cleared == s.a.cleared
            && (QueuedData(t.a.ep.link.pkgs) == if IsAnswer(s, s.ba[0]) then [] else QueuedData(s.a.ep.link.pkgs))
  {
    hide Plain, FramesOf, Response, Respond, Flow.Ok, AcksOf, DataOf;
    var f, l, w := s.ba[0], s.a.ep.link, FlowOf(s.a, s.b, s.ab, s.ba);
    assert LinkFrame(s.sid, f);
    OnlyCurrentQueued(w);
    if f.IsData() {
      var added := RespondQueue(s.sid, l, f.head.packageIndex);
    } else {
      AckQueue(s.sid, l, f.head);
    }
  }

  lemma {:induction false} DeliverBack(s: Sys) returns (acts: seq<Action>)
    requires Inv(s) && !s.a.cleared && (Settled(s) || AnswerOnLine(s))
    ensures Feasible(s, acts) && AllQuiet(acts) && |acts| <= |s.ba|
    ensures Settled(Run(s, acts)) && Run(s, acts).a.requested == s.a.requested
    decreases |s.ba|
  {
    hide Inv, Step, Settled;
    if Settled(s) {
      acts := [];
    } else {
      var one := AtA(Deliver);
      var t := Step(s, one);
      ArrivesAtA(s);
      StepKeeps(s, one);
      SettledMeans(t);
      if !IsAnswer(s, s.ba[0]) {
        var i :| 0 <= i < |s.ba| && IsAnswer(s, s.ba[i]);
        assert t.ba[i - 1] == s.ba[i] && IsAnswer(t, t.ba[i - 1]);
      }
      var more := DeliverBack(t);
      acts := [one] + more;
      RunCons(s, one, more);
    }
  }

  lemma {:induction false} ScanBound(todo: seq<Pkg>, busy: set<U32>, expired: seq<bool>)
    requires |expired| == |todo|
    ensures var w := Scan(todo, busy, expired); |w.frames| <= |todo| && |w.pkgs| <= |todo|
    decreases |todo|
  {
    if todo != [] {
      var p := todo[0];
      var busy1 := if p.status == WaitSend && (p.response || p.sessionId in busy) then busy else busy + {p.sessionId};
      ScanBound(todo[1..], busy1, expired[1..]);
    }
  }

  // A pass of b sends the answer it has queued.
  lemma PassOfB(s: Sys)
    requires Inv(s) && AnswerQueued(s)
    ensures var act := AtB(SendPkgs(NoneExpired(|s.b.ep.link.pkgs|)));
            && CanStep(s, act)
            && var t := Step(s, act);
            t.a == s.a && AnswerOnLine(t) && |t.ba| <= |s.ba| + |s.b.ep.link.pkgs|
  {
    hide Inv, Scan, Entry, LinkFrame;
    InvIsHonest(s);
    var pkgs := s.b.ep.link.pkgs;
    var e := NoneExpired(|pkgs|);
    var i :| 0 <= i < |pkgs| && IsAnswer(s, pkgs[i].frame);
    AnswerWaits(s.sid, pkgs, i);
    AcksGoOut(pkgs, {}, e, i);
    ScanBound(pkgs, {}, e);
    var w, t := Scan(pkgs, {}, e), Step(s, AtB(SendPkgs(e)));
    var k :| 0 <= k < |w.frames| && w.frames[k] == pkgs[i].frame;
    assert t.ba == s.ba + w.frames;
    assert IsAnswer(t, t.ba[|s.ba| + k]);
  }

  lemma AnswerWaits(sid: U32, pkgs: seq<Pkg>, i: nat)
    requires Entries(sid, pkgs) && i < |pkgs| && !pkgs[i].frame.IsData()
    ensures pkgs[i].response && pkgs[i].status == WaitSend
  {
    hide LinkFrame;
    assert Entry(sid, pkgs[i]);
  }

  lemma AnswerBack(s: Sys) returns (acts: seq<Action>)
    requires Inv(s) && !s.a.cleared && (Settled(s) || AnswerOnLine(s) || AnswerQueued(s))
    ensures Feasible(s, acts) && AllQuiet(acts) && |acts| <= 1 + |s.ba| + |s.b.ep.link.pkgs|
    ensures Settled(Run(s, acts)) && Run(s, acts).a.requested == s.a.requested
  {
    hide Inv, Step, Settled, AnswerOnLine, AnswerQueued, Run, Feasible;
    if Settled(s) || AnswerOnLine(s) {
      acts := DeliverBack(s);
    } else {
      var one := AtB(SendPkgs(NoneExpired(|s.b.ep.link.pkgs|)));
      PassOfB(s);
      StepKeeps(s, one);
      var more := DeliverBack(Step(s, one));
      acts := [one] + more;
      RunCons(s, one, more);
    }
  }

  // ---- the way there -----------------------------------------------------------------------------

  lemma ReceiveGrows(ep: Endpoint, f: Frame)
    ensures |Receive(ep, f).link.pkgs| <= |ep.link.pkgs| + 1
  {
    hide ToPkgIdentityString;
  }

  // The package requested last is answered when it arrives, as often as it does.
  lemma ArrivesAnswered(s: Sys)
    requires Inv(s) && s.ab != [] && Forward(s).Current(s.ab[0])
    ensures AnswerQueued(Step(s, AtB(Deliver)))
  {
    hide Respond, Inv;
    InvIsHonest(s);
    OnThisSession(s, s.ab[0]);
    var t, h := Step(s, AtB(Deliver)), s.ab[0].head;
    var i := AckIsQueued(s.b.ep.link, h.sessionId, h.packageIndex);
    assert t.b.ep.link == Respond(s.b.ep.link, h.sessionId, h.packageIndex, PKG_OPTION_ACK);
    assert IsAnswer(t, t.b.ep.link.pkgs[i].frame);
  }

  lemma OnThisSession(s: Sys, f: Frame)
    requires Inv(s) && f in s.ab
    ensures f.head.sessionId == s.sid
  {
    hide Tidy, FlowOf, Flow.Ok, Plain;
    var i :| 0 <= i < |s.ab| && s.ab[i] == f;
    assert LinkFrame(s.sid, s.ab[i]);
  }

  lemma {:induction false} DeliverForward(s: Sys) returns (acts: seq<Action>)
    requires Inv(s) && Coming(s)
    ensures Feasible(s, acts) && AllQuiet(acts) && |acts| <= |s.ab|
    ensures var t := Run(s, acts);
            AnswerQueued(t) && t.a == s.a && t.ba == s.ba && |t.b.ep.link.pkgs| <= |s.b.ep.link.pkgs| + |s.ab|
    decreases |s.ab|
  {
    hide Inv, Forward, Flow.Current, AnswerQueued, Receive;
    var one := AtB(Deliver);
    var t := Step(s, one);
    ReceiveGrows(s.b.ep, s.ab[0]);
    StepKeeps(s, one);
    if Forward(s).Current(s.ab[0]) {
      ArrivesAnswered(s);
      acts := [one];
      RunOne(s, one);
    } else {
      SameForward(s, t);
      var i :| 0 <= i < |s.ab| && Forward(s).Current(s.ab[i]);
      assert t.ab[i - 1] == s.ab[i];
      var more := DeliverForward(t);
      acts := [one] + more;
      RunCons(s, one, more);
    }
  }

  // One pass of a puts the package that waits on the line.
  lemma PassOfA(s: Sys)
    requires Inv(s) && DataWaits(s.a.ep.link.pkgs) && QueuedData(s.a.ep.link.pkgs) != []
    ensures var act := AtA(SendPkgs(NoneExpired(|s.a.ep.link.pkgs|)));
            && CanStep(s, act)
            && var t := Step(s, act);
            && Coming(t) && t.a.requested == s.a.requested && t.a.cleared == s.a.cleared
            && t.b == s.b && t.ba == s.ba && |t.ab| <= |s.ab| + |s.a.ep.link.pkgs|
  {
    hide Inv, Scan, QueuedData, DataOf, Flow.Current, Forward;
    var pkgs := s.a.ep.link.pkgs;
    var act := AtA(SendPkgs(NoneExpired(|pkgs|)));
    FlowFacts(s);
    TidyEntries(s);
    ScanSends(s.sid, pkgs, {});
    var w, t, f := Scan(pkgs, {}, NoneExpired(|pkgs|)), Step(s, act), QueuedData(pkgs)[0];
    SameForward(s, t);
    DataAreMembers(w.frames, f);
    var k :| 0 <= k < |w.frames| && w.frames[k] == f;
    assert t.ab[|s.ab| + k] == f;
  }

  // At most two passes put it there if it can be sent at all.
  lemma SendForward(s: Sys) returns (acts: seq<Action>)
    requires Inv(s) && CanBeSent(s)
    ensures Feasible(s, acts) && AllQuiet(acts) && |acts| <= 2
    ensures var t := Run(s, acts);
            && Coming(t) && t.a.requested == s.a.requested && t.a.cleared == s.a.cleared
            && t.b == s.b && t.ba == s.ba && |t.ab| <= |s.ab| + |s.a.ep.link.pkgs|
  {
    hide Inv, QueuedData, Coming, Run, Feasible, Step, CanStep;
    var pkgs := s.a.ep.link.pkgs;
    var i :| 0 <= i < |pkgs| && Sendable(pkgs[i]);
    TidyEntries(s);
    FlowFacts(s);
    NoDataMember(s.sid, pkgs, i);
    if pkgs[i].status == WaitSend {
      OneWaitsAllWait(s.sid, pkgs, i);
      PassOfA(s);
      acts := [AtA(SendPkgs(NoneExpired(|pkgs|)))];
      RunOne(s, acts[0]);
    } else {
      acts := SendAgain(s, i);
    }
  }

  lemma SendAgain(s: Sys, i: nat) returns (acts: seq<Action>)
    requires Inv(s) && i < |s.a.ep.link.pkgs|
    requires var p := s.a.ep.link.pkgs[i]; !p.response && p.status == WaitResponse && p.retryChance > 0
    ensures Feasible(s, acts) && AllQuiet(acts) && |acts| <= 2
    ensures var t := Run(s, acts);
            && Coming(t) && t.a.requested == s.a.requested && t.a.cleared == s.a.cleared
            && t.b == s.b && t.ba == s.ba && |t.ab| <= |s.ab| + |s.a.ep.link.pkgs|
  {
    hide Inv, QueuedData, Coming, Run, Feasible, Step, CanStep;
    var one := AtA(SendPkgs(OnlyExpired(|s.a.ep.link.pkgs|, i)));
    RetryPass(s, i);
    StepKeeps(s, one);
    var t := Step(s, one);
    var k :| 0 <= k < |t.a.ep.link.pkgs| && Sendable(t.a.ep.link.pkgs[k]);
    TidyEntries(t);
    NoDataMember(t.sid, t.a.ep.link.pkgs, k);
    PassOfA(t);
    var two := AtA(SendPkgs(NoneExpired(|t.a.ep.link.pkgs|)));
    RunOne(t, two);
    RunCons(s, one, [two]);
    acts := [one] + [two];
  }

  // ---- there and back ------------------------------------------------------------------------------

  lemma ThereAndBack(s: Sys) returns (acts: seq<Action>)
    requires Inv(s) && !s.a.cleared && Coming(s)
    ensures Feasible(s, acts) && AllQuiet(acts) && |acts| <= 1 + 2 * |s.ab| + |s.ba| + |s.b.ep.link.pkgs|
    ensures Settled(Run(s, acts)) && Run(s, acts).a.requested == s.a.requested
  {
    hide Inv, Coming, AnswerQueued, Settled, Run, Feasible;
    var there := DeliverForward(s);
    QuietKeeps(s, there);
    var back := AnswerBack(Run(s, there));
    acts := there + back;
    RunAppend(s, there, back);
  }

  lemma QuietKeeps(s: Sys, acts: seq<Action>)
    requires Inv(s) && Feasible(s, acts) && AllQuiet(acts)
    ensures Inv(Run(s, acts))
  {
    hide Inv, Run, Feasible;
    QuietIsGuarded(s, acts);
    RunKeeps(s, acts);
  }

  // From every state with hope, a run without loss and of known length ends with the queue empty, the
  // slot free, the session alive, and everything requested dispatched.
  lemma SenderSettles(s: Sys) returns (acts: seq<Action>)
    requires Inv(s) && Hopeful(s)
    ensures Feasible(s, acts) && AllQuiet(acts)
    ensures |acts| <= 3 + 2 * (|s.ab| + |s.a.ep.link.pkgs|) + |s.ba| + |s.b.ep.link.pkgs|
    ensures var t := Run(s, acts);
            Settled(t) && t.a.requested == s.a.requested && t.b.ep.delivered == s.a.requested
  {
    hide Inv, Coming, AnswerQueued, AnswerOnLine, CanBeSent, Settled, Run, Feasible, AllQuiet;
    if Settled(s) || AnswerOnLine(s) || AnswerQueued(s) {
      acts := AnswerBack(s);
    } else if Coming(s) {
      acts := ThereAndBack(s);
    } else {
      acts := SendAndSettle(s);
    }
    SettledHasAll(s, acts);
  }

  lemma SendAndSettle(s: Sys) returns (acts: seq<Action>)
    requires Inv(s) && !s.a.cleared && CanBeSent(s)
    ensures Feasible(s, acts) && AllQuiet(acts)
    ensures |acts| <= 3 + 2 * (|s.ab| + |s.a.ep.link.pkgs|) + |s.ba| + |s.b.ep.link.pkgs|
    ensures Settled(Run(s, acts)) && Run(s, acts).a.requested == s.a.requested
  {
    hide Inv, Coming, CanBeSent, Settled, Run, Feasible;
    var send := SendForward(s);
    QuietKeeps(s, send);
    var more := ThereAndBack(Run(s, send));
    acts := send + more;
    RunAppend(s, send, more);
  }

  lemma SettledHasAll(s: Sys, acts: seq<Action>)
    requires Inv(s) && Feasible(s, acts) && AllQuiet(acts) && Settled(Run(s, acts))
    requires Run(s, acts).a.requested == s.a.requested
    ensures Run(s, acts).b.ep.delivered == s.a.requested
  {
    hide Inv, Run, Feasible, AllQuiet;
    QuietKeeps(s, acts);
    SettledMeans(Run(s, acts));
    FlowFacts(Run(s, acts));
  }

  // ---- and never otherwise -------------------------------------------------------------------------

  // Given up, or waiting through its last chance for an answer that nothing can bring any more.
  predicate Lost(s: Sys) {
    || s.a.cleared
    || (QueuedData(s.a.ep.link.pkgs) != [] && AllSpent(s.a.ep.link.pkgs) && !Coming(s) && !AnswerOnLine(s) && !AnswerQueued(s))
  }

  lemma LostIsNoHope(s: Sys)
    requires Inv(s)
    ensures Lost(s) <==> !Hopeful(s)
  {
    hide Inv, Settled, AnswerOnLine, AnswerQueued, Coming, QueuedData;
    if !s.a.cleared {
      SettledMeans(s);
    }
  }

  // What a pass writes and what it leaves was queued before it.
  lemma {:induction false} ScanSources(todo: seq<Pkg>, busy: set<U32>, expired: seq<bool>)
    requires |expired| == |todo|
    ensures var w := Scan(todo, busy, expired);
            && (forall f | f in w.frames :: f in FramesOf(todo))
            && (forall f | f in FramesOf(w.pkgs) :: f in FramesOf(todo))
    decreases |todo|
  {
    hide FramesOf;
    if todo != [] {
      var p, rest, w := todo[0], todo[1..], Scan(todo, busy, expired);
      var busy1 := if p.status == WaitSend && (p.response || p.sessionId in busy) then busy else busy + {p.sessionId};
      ScanSources(rest, busy1, expired[1..]);
      var r := Scan(rest, busy1, expired[1..]);
      assert todo == [p] + rest;
      ConsFrames(p, rest);
      if w.pkgs != [] {
        ConsFrames(w.pkgs[0], r.pkgs);
        ConsFrames(w.pkgs[0], rest);
      }
    }
  }

  lemma ConsFrames(p: Pkg, rest: seq<Pkg>)
    ensures FramesOf([p] + rest) == [p.frame] + FramesOf(rest)
  {
  }

  lemma {:induction false} WithoutSources(pkgs: seq<Pkg>, sid: U32)
    ensures forall f | f in FramesOf(Without(pkgs, sid)) :: f in FramesOf(pkgs)
  {
    hide FramesOf;
    if pkgs != [] {
      WithoutSources(pkgs[1..], sid);
      assert pkgs == [pkgs[0]] + pkgs[1..];
      ConsFrames(pkgs[0], pkgs[1..]);
      ConsFrames(pkgs[0], Without(pkgs[1..], sid));
    }
  }

  // No answer on the way unless one was there before.
  lemma StillNoAnswer(s: Sys, t: Sys)
    requires !AnswerOnLine(s) && !AnswerQueued(s) && t.a.requested == s.a.requested
    requires forall f | f in t.ba || f in FramesOf(t.b.ep.link.pkgs) ::
               f in s.ba || f in FramesOf(s.b.ep.link.pkgs) || !IsAnswer(s, f)
    ensures !AnswerOnLine(t) && !AnswerQueued(t)
  {
    hide IsAnswer;
    assert forall f :: IsAnswer(t, f) == IsAnswer(s, f) by { SameAnswer(s, t); }
    forall f | f in t.ba || f in FramesOf(t.b.ep.link.pkgs) ensures !IsAnswer(t, f) {
      if f in s.ba || f in FramesOf(s.b.ep.link.pkgs) {
        NoAnswerAmong(s, f);
      }
    }
    forall i | 0 <= i < |t.b.ep.link.pkgs| ensures !IsAnswer(t, t.b.ep.link.pkgs[i].frame) {
      assert FramesOf(t.b.ep.link.pkgs)[i] in FramesOf(t.b.ep.link.pkgs);
    }
  }

  lemma SameAnswer(s: Sys, t: Sys)
    requires t.a.requested == s.a.requested
    ensures forall f :: IsAnswer(t, f) == IsAnswer(s, f)
  {
  }

  lemma NoAnswerAmong(s: Sys, f: Frame)
    requires !AnswerOnLine(s) && !AnswerQueued(s) && (f in s.ba || f in FramesOf(s.b.ep.link.pkgs))
    ensures !IsAnswer(s, f)
  {
    hide IsAnswer;
    if f in s.ba {
      var i :| 0 <= i < |s.ba| && s.ba[i] == f;
      assert !IsAnswer(s, s.ba[i]);
    } else {
      var i :| 0 <= i < |FramesOf(s.b.ep.link.pkgs)| && FramesOf(s.b.ep.link.pkgs)[i] == f;
      assert !IsAnswer(s, s.b.ep.link.pkgs[i].frame);
    }
  }

  // What one delivery at b adds to its queue.
  lemma AnsweredOnly(ep: Endpoint, f: Frame)
    requires Honest(ep.link.pkgs)
    ensures forall g | g in FramesOf(Receive(ep, f).link.pkgs) ::
              g in FramesOf(ep.link.pkgs) || (f.IsData() && g.head.packageIndex == f.head.packageIndex)
  {
    hide Honest, ToPkgIdentityString;
    var l, h := ep.link, f.head;
    var r := Receive(ep, f).link.pkgs;
    if f.IsData() {
      var i := AckIsQueued(l, h.sessionId, h.packageIndex);
      forall k | 0 <= k < |r| ensures r[k].frame in FramesOf(l.pkgs) || r[k].frame.head.packageIndex == h.packageIndex {
        if k < |l.pkgs| {
          assert r[k] == l.pkgs[k] && FramesOf(l.pkgs)[k] == r[k].frame;
        }
      }
    } else {
      var found := Find(l.pkgs, ToPkgIdentityString(false, h.sessionId, h.packageIndex));
      forall k | 0 <= k < |r| ensures r[k].frame in FramesOf(l.pkgs) {
        var j := if found.Some? && h.HasOption(PKG_OPTION_ACK) && k >= found.value then k + 1 else k;
        assert FramesOf(l.pkgs)[j] == r[k].frame;
      }
    }
  }

  lemma LostAtA(s: Sys, e: Event)
    requires Inv(s) && Lost(s) && !s.a.cleared && Enabled(s, e) && (e.SendPkgs? || e.Deliver?)
    ensures Lost(StepA(s, e))
  {
    hide Inv, Scan, Coming, AnswerOnLine, AnswerQueued, QueuedData, FramesOf, Receive;
    var t := StepA(s, e);
    if e.Deliver? {
      ArrivesAtA(s);
      ArrivingAtA(s);
      StillNotComing(s, t);
      StillNoAnswer(s, t);
      assert !IsAnswer(s, s.ba[0]) by { NoAnswerAmong(s, s.ba[0]); }
    } else if !t.a.cleared {
      TidyEntries(s);
      var w := Scan(s.a.ep.link.pkgs, {}, e.expired);
      ScanSpent(s.sid, s.a.ep.link.pkgs, {}, e.expired);
      ScanQueue(s.sid, s.a.ep.link.pkgs, {}, e.expired);
      StillNoAnswer(s, t);
      NothingNewComes(s, t, w.frames);
    }
  }

  lemma NothingNewComes(s: Sys, t: Sys, frames: seq<Frame>)
    requires !Coming(s) && t.a.requested == s.a.requested && t.ab == s.ab + frames && DataOf(frames) == []
    ensures !Coming(t)
  {
    hide Coming;
    forall f | f in t.ab && f.IsData() ensures f in s.ab {
      DataAreMembers(frames, f);
    }
    StillNotComing(s, t);
  }

  lemma LostAtB(s: Sys, e: Event)
    requires Inv(s) && Lost(s) && !s.a.cleared && Enabled(s.Flip(), e) && (e.SendPkgs? || e.Deliver?)
    ensures Lost(Step(s, AtB(e)))
  {
    hide Inv, Scan, Coming, AnswerOnLine, AnswerQueued, QueuedData, FramesOf, Receive;
    var t := Step(s, AtB(e));
    if e.Deliver? {
      NotFirst(s);
      InvIsHonest(s);
      AnsweredOnly(s.b.ep, s.ab[0]);
      OldIsNoAnswer(s);
      StillNoAnswer(s, t);
      StillNotComing(s, t);
    } else {
      var pkgs := s.b.ep.link.pkgs;
      var w := Scan(pkgs, {}, e.expired);
      ScanSources(pkgs, {}, e.expired);
      if w.gaveUp.Some? {
        WithoutSources(w.pkgs, w.gaveUp.value);
      }
      StillNoAnswer(s, t);
      StillNotComing(s, t);
    }
  }

  // A data package on the line that is not the one requested last has another number.
  lemma OldIsNoAnswer(s: Sys)
    requires Inv(s) && s.ab != [] && !Forward(s).Current(s.ab[0])
    ensures s.ab[0].IsData() ==> s.ab[0].head.packageIndex != |s.a.requested| % TWO32
  {
    hide Inv;
    if s.ab[0].IsData() {
      OnTheLine(s, s.ab[0]);
      Successive(|s.a.requested| - 1);
    }
  }

  lemma LostStays(s: Sys, act: Action)
    requires Inv(s) && Lost(s) && Quiet(act) && CanStep(s, act)
    ensures Lost(Step(s, act))
  {
    hide Inv, Lost, Enabled, AnswerOnLine, AnswerQueued, Coming;
    if s.a.cleared {
      ClearedStays(s, act);
    } else {
      match act
      case AtA(e) => LostAtA(s, e);
      case AtB(e) => LostAtB(s, e);
    }
  }

  lemma ClearedStays(s: Sys, act: Action)
    requires s.a.cleared && Quiet(act) && CanStep(s, act)
    ensures Lost(Step(s, act))
  {
    hide Coming, AnswerOnLine, AnswerQueued, Receive, Scan;
  }

  lemma {:induction false} LostForEver(s: Sys, acts: seq<Action>)
    requires Inv(s) && Lost(s) && Feasible(s, acts) && AllQuiet(acts)
    ensures Inv(Run(s, acts)) && Lost(Run(s, acts))
    decreases |acts|
  {
    hide Inv, Step, CanStep, Lost;
    if acts != [] {
      assert Quiet(acts[0]);
      LostStays(s, acts[0]);
      StepKeeps(s, acts[0]);
      LostForEver(Step(s, acts[0]), acts[1..]);
    }
  }

  // Some run without loss settles the sender exactly from the states with hope.
  lemma SettlesIff(s: Sys)
    requires Inv(s)
    ensures Hopeful(s) <==> exists acts :: Feasible(s, acts) && AllQuiet(acts) && Settled(Run(s, acts))
  {
    hide Inv, Hopeful, Lost, Settled, Feasible, Run, AllQuiet;
    LostIsNoHope(s);
    if Hopeful(s) {
      var acts := SenderSettles(s);
    } else {
      forall acts | Feasible(s, acts) && AllQuiet(acts) ensures !Settled(Run(s, acts)) {
        LostForEver(s, acts);
        LostIsNoHope(Run(s, acts));
        SettledIsHope(Run(s, acts));
      }
    }
  }

  lemma SettledIsHope(s: Sys)
    ensures Settled(s) ==> Hopeful(s)
  {
    hide AnswerOnLine, AnswerQueued, Coming, CanBeSent;
  }

  // ---- a whole buffer --------------------------------------------------------------------------------

  // Steps in which nothing is lost and nothing given up from outside: passes, arrivals and requests of a.
  predicate NoLoss(acts: seq<Action>) {
    forall i | 0 <= i < |acts| :: Quiet(acts[i]) || (acts[i].AtA? && acts[i].event.Request?)
  }

  predicate PayloadsFit(ps: seq<seq<Byte>>) {
    forall i | 0 <= i < |ps| :: 1 <= |ps[i]| <= PACKAGE_DATA_MAX_SIZE
  }

  // The next package is asked for.
  lemma AskedFor(s: Sys, payload: seq<Byte>, last: bool)
    requires Inv(s) && Settled(s) && 1 <= |payload| <= PACKAGE_DATA_MAX_SIZE
    ensures CanStep(s, AtA(Request(payload, last)))
    ensures var t := Step(s, AtA(Request(payload, last)));
            Inv(t) && CanBeSent(t) && !t.a.cleared && t.a.requested == s.a.requested + [payload]
  {
    hide Inv, CanBeSent;
    var act := AtA(Request(payload, last));
    StepKeeps(s, act);
    IsThere(s, payload, last);
  }

  lemma IsThere(s: Sys, payload: seq<Byte>, last: bool)
    requires Inv(s) && Settled(s) && 1 <= |payload| <= PACKAGE_DATA_MAX_SIZE
    ensures CanBeSent(StepA(s, Request(payload, last)))
  {
    hide FlowOf, Flow.Ok, LinkFrames, ToPkgIdentityString, QueuedData;
    var f, l := Segment(s.sid, |s.a.requested| + 1, payload, last), s.a.ep.link;
    SettledMeans(s);
    NoDataNoKey(s.sid, l, f);
    var t := StepA(s, Request(payload, last));
    assert t.a.ep.link.pkgs[|l.pkgs|] == NewPkg(f);
    assert Sendable(t.a.ep.link.pkgs[|l.pkgs|]);
  }

  // Payload after payload, each asked for when the one before has been answered.
  lemma {:induction false} AllArrive(s: Sys, ps: seq<seq<Byte>>) returns (acts: seq<Action>)
    requires Inv(s) && Hopeful(s) && PayloadsFit(ps)
    ensures Feasible(s, acts) && NoLoss(acts)
    ensures var t := Run(s, acts);
            Inv(t) && Settled(t) && t.a.requested == s.a.requested + ps && t.b.ep.delivered == s.a.requested + ps
    decreases |ps|
  {
    hide Inv, Hopeful, Settled, CanBeSent, Feasible, Run, Step, CanStep;
    var first := SenderSettles(s);
    QuietKeeps(s, first);
    var t := Run(s, first);
    if ps == [] {
      acts := first;
      assert s.a.requested + ps == s.a.requested;
    } else {
      var ask := AtA(Request(ps[0], |ps| == 1));
      AskedFor(t, ps[0], |ps| == 1);
      var u := Step(t, ask);
      SendableIsHope(u);
      var more := AllArrive(u, ps[1..]);
      RunCons(t, ask, more);
      RunAppend(s, first, [ask] + more);
      acts := first + ([ask] + more);
      assert s.a.requested + [ps[0]] + ps[1..] == s.a.requested + ps;
    }
  }

  lemma SendableIsHope(s: Sys)
    requires !s.a.cleared && CanBeSent(s)
    ensures Hopeful(s)
  {
    hide CanBeSent;
  }

  // From every state with hope, the packages SendUARTData cuts a buffer into are brought over by a run
  // without loss: what the peer has dispatched then ends in the whole buffer.
  lemma BufferArrives(s: Sys, data: seq<Byte>) returns (acts: seq<Action>)
    requires Inv(s) && Hopeful(s) && data != []
    ensures Feasible(s, acts) && NoLoss(acts)
    ensures var t, n := Run(s, acts), |s.a.requested|;
            && Settled(t) && n <= |t.b.ep.delivered| && t.b.ep.delivered[..n] == s.a.requested
            && Flatten(t.b.ep.delivered[n..]) == data
  {
    hide Inv, Hopeful, Settled, Feasible, Run, Cut;
    var fs := Cut(s.sid, |s.a.requested|, data);
    var ps := Payloads(fs);
    PayloadsJoin(s.sid, |s.a.requested|, data);
    forall i | 0 <= i < |ps| ensures 1 <= |ps[i]| <= PACKAGE_DATA_MAX_SIZE {
      PackageShape(s.sid, |s.a.requested|, data, i);
    }
    acts := AllArrive(s, ps);
    assert (s.a.requested + ps)[|s.a.requested|..] == ps;
  }
}

/** The link delivers, in order and once each, what it was asked to carry. */
module ArqSafety {
  import opened Bytes
  import opened UartHead
  import opened UartQueue
  import opened UartParser
  import opened UartSegment
  import opened Arq
  import opened ArqFlow

  function QueuedData(pkgs: seq<Pkg>): seq<Frame> {
    DataOf(FramesOf(pkgs))
  }

  function QueuedAcks(pkgs: seq<Pkg>): seq<U32> {
    AcksOf(FramesOf(pkgs))
  }

  // The direction in which `x` sends over `fwd` and `y` acknowledges over `rev`.
  function FlowOf(x: Node, y: Node, fwd: seq<Frame>, rev: seq<Frame>): Flow {
    Flow(x.requested, QueuedData(x.ep.link.pkgs), x.cleared, DataOf(fwd),
         y.ep.delivered, y.ep.dispatched, AcksOf(rev) + QueuedAcks(y.ep.link.pkgs))
  }

  // The packages of one session that the link itself puts on the line.
  predicate LinkFrame(sid: U32, f: Frame) {
    && Plain(f) && f.head.sessionId == sid
    && (f.IsData() <==> f.payload != [])
    && (f.IsData() || f.head.HasOption(PKG_OPTION_ACK))
  }

  predicate LinkFrames(sid: U32, fs: seq<Frame>) {
    forall i | 0 <= i < |fs| :: LinkFrame(sid, fs[i])
  }

  predicate Entry(sid: U32, p: Pkg) {
    && LinkFrame(sid, p.frame)
    && p.sessionId == sid
    && p.key == KeyOf(p.frame.head)
    && p.response == !p.frame.IsData()
    && (p.response ==> p.status == WaitSend)
  }

  predicate Tidy(sid: U32, l: Link) {
    && (forall i | 0 <= i < |l.pkgs| :: Entry(sid, l.pkgs[i]))
    && (sid in l.slots <==> QueuedData(l.pkgs) != [])
  }

  predicate Inv(s: Sys) {
    && Tidy(s.sid, s.a.ep.link) && Tidy(s.sid, s.b.ep.link)
    && LinkFrames(s.sid, s.ab) && LinkFrames(s.sid, s.ba)
    && FlowOf(s.a, s.b, s.ab, s.ba).Ok()
    && FlowOf(s.b, s.a, s.ba, s.ab).Ok()
  }

  // ---- the queue, seen as data packages and acknowledgements ------------------------

  lemma QueueSplit(x: seq<Pkg>, p: Pkg, y: seq<Pkg>)
    ensures QueuedData(x + [p] + y) == QueuedData(x) + (if p.frame.IsData() then [p.frame] else []) + QueuedData(y)
    ensures QueuedAcks(x + [p] + y) == QueuedAcks(x) + (if p.frame.IsData() then [] else [p.frame.head.packageIndex]) + QueuedAcks(y)
    ensures QueuedData(x + y) == QueuedData(x) + QueuedData(y)
    ensures QueuedAcks(x + y) == QueuedAcks(x) + QueuedAcks(y)
  {
    hide DataOf, AcksOf;
    var fx, fy := FramesOf(x), FramesOf(y);
    assert FramesOf(x + [p] + y) == fx + [p.frame] + fy;
    assert FramesOf(x + y) == fx + fy;
    DataConcat(fx, fy);
    AcksConcat(fx, fy);
    DataSplit(fx, p.frame, fy);
    AcksSplit(fx, p.frame, fy);
  }

  lemma QueueAppend(x: seq<Pkg>, p: Pkg)
    ensures QueuedData(x + [p]) == QueuedData(x) + (if p.frame.IsData() then [p.frame] else [])
    ensures QueuedAcks(x + [p]) == QueuedAcks(x) + (if p.frame.IsData() then [] else [p.frame.head.packageIndex])
  {
    QueueSplit(x, p, []);
    assert x + [p] + [] == x + [p];
  }

  lemma NoDataNoKey(sid: U32, l: Link, f: Frame)
    requires Tidy(sid, l) && QueuedData(l.pkgs) == []
    requires f.IsData() && f.head.sessionId == sid
    ensures Find(l.pkgs, KeyOf(f.head)).None?
  {
    hide ToPkgIdentityString;
    var r := Find(l.pkgs, KeyOf(f.head));
    if r.Some? {
      var p := l.pkgs[r.value];
      assert Entry(sid, p);
      KeyInjective(p.frame.head.IsResponsePackage(), sid, p.frame.head.packageIndex, false, sid, f.head.packageIndex);
      assert FramesOf(l.pkgs)[r.value] == p.frame;
      DataAreMembers(FramesOf(l.pkgs), p.frame);
    }
  }

  lemma RequestQueue(sid: U32, l: Link, f: Frame)
    requires Tidy(sid, l) && QueuedData(l.pkgs) == [] && sid !in l.slots
    requires f.Sized() && f.head.sessionId == sid && f.IsData() && LinkFrame(sid, Checked(f))
    ensures var r := UartQueue.Request(l, f, true);
            && Tidy(sid, r) && QueuedData(r.pkgs) == [Checked(f)] && QueuedAcks(r.pkgs) == QueuedAcks(l.pkgs)
  {
    hide ToPkgIdentityString, Plain;
    NoDataNoKey(sid, l, f);
    QueueAppend(l.pkgs, NewPkg(f));
    assert KeyOf(Checked(f).head) == KeyOf(f.head);
    assert Entry(sid, NewPkg(f));
  }

  lemma AckFrameIsLinkFrame(sid: U32, k: U32)
    ensures var f := Frame(NewHead(sid, PKG_OPTION_ACK, 0, k), []);
            && LinkFrame(sid, Checked(f)) && !Checked(f).IsData() && Checked(f).head.packageIndex == k
  {
    CheckedIsWellFormed(Frame(NewHead(sid, PKG_OPTION_ACK, 0, k), []));
  }

  lemma RespondQueue(sid: U32, l: Link, k: U32) returns (added: bool)
    requires Tidy(sid, l)
    ensures var r := Respond(l, sid, k, PKG_OPTION_ACK);
            && Tidy(sid, r) && QueuedData(r.pkgs) == QueuedData(l.pkgs) && r.slots == l.slots
            && QueuedAcks(r.pkgs) == QueuedAcks(l.pkgs) + (if added then [k] else [])
  {
    hide ToPkgIdentityString, Plain, Checked, QueuedData, QueuedAcks;
    var f := Frame(NewHead(sid, PKG_OPTION_ACK, 0, k), []);
    AckFrameIsLinkFrame(sid, k);
    added := Find(l.pkgs, KeyOf(f.head)).None?;
    if added {
      CheckedKeepsKey(f);
      QueueAppend(l.pkgs, NewPkg(f));
      assert Entry(sid, NewPkg(f));
    }
  }

  lemma CheckedKeepsKey(f: Frame)
    requires f.Sized()
    ensures KeyOf(Checked(f).head) == KeyOf(f.head)
    ensures Checked(f).IsData() == f.IsData() && Checked(f).head.sessionId == f.head.sessionId
    ensures Checked(f).head.packageIndex == f.head.packageIndex
  {
  }

  lemma FoundIsData(sid: U32, l: Link, k: U32)
    requires Tidy(sid, l) && |QueuedData(l.pkgs)| <= 1
    ensures match Find(l.pkgs, ToPkgIdentityString(false, sid, k))
            case None => forall i | 0 <= i < |QueuedData(l.pkgs)| :: QueuedData(l.pkgs)[i].head.packageIndex != k
            case Some(i) => QueuedData(l.pkgs) == [l.pkgs[i].frame] && l.pkgs[i].frame.head.packageIndex == k
  {
    hide ToPkgIdentityString, Plain;
    var key := ToPkgIdentityString(false, sid, k);
    var qd := QueuedData(l.pkgs);
    match Find(l.pkgs, key)
    case None =>
      forall i | 0 <= i < |qd|
        ensures qd[i].head.packageIndex != k
      {
        DataAreMembers(FramesOf(l.pkgs), qd[i]);
        var j :| 0 <= j < |l.pkgs| && FramesOf(l.pkgs)[j] == qd[i];
        assert Entry(sid, l.pkgs[j]) && l.pkgs[j].key != key;
      }
    case Some(i) =>
      var p := l.pkgs[i];
      assert Entry(sid, p);
      KeyInjective(p.frame.head.IsResponsePackage(), sid, p.frame.head.packageIndex, false, sid, k);
      assert FramesOf(l.pkgs)[i] == p.frame;
      DataAreMembers(FramesOf(l.pkgs), p.frame);
  }

  // An ACK takes the data package it names out of the queue and leaves the rest alone.
  lemma AckQueue(sid: U32, l: Link, h: Head)
    requires Tidy(sid, l) && |QueuedData(l.pkgs)| <= 1
    requires h.sessionId == sid && h.HasOption(PKG_OPTION_ACK)
    ensures var r, qd := Response(l, h), QueuedData(l.pkgs);
            && Tidy(sid, r) && QueuedAcks(r.pkgs) == QueuedAcks(l.pkgs)
            && QueuedData(r.pkgs) == if qd != [] && qd[0].head.packageIndex == h.packageIndex then [] else qd
  {
    hide ToPkgIdentityString, Plain, AcksOf, DataOf, FramesOf;
    FoundIsData(sid, l, h.packageIndex);
    var found := Find(l.pkgs, ToPkgIdentityString(false, h.sessionId, h.packageIndex));
    if found.Some? {
      var i := found.value;
      var x, p, y := l.pkgs[..i], l.pkgs[i], l.pkgs[i + 1..];
      assert l.pkgs == x + [p] + y;
      QueueSplit(x, p, y);
      assert p.frame.IsData() by { OnlyDataFrames(l.pkgs, p.frame); }
      assert |QueuedData(x) + [p.frame] + QueuedData(y)| == 1;
      assert QueuedData(x) == [] && QueuedData(y) == [];
    }
  }

  lemma OnlyDataFrames(pkgs: seq<Pkg>, f: Frame)
    requires f in QueuedData(pkgs)
    ensures f.IsData()
  {
    DataAreMembers(FramesOf(pkgs), f);
  }

  lemma NakQueue(sid: U32, l: Link, k: U32)
    requires Tidy(sid, l)
    ensures var r := Response(l, NewHead(sid, PKG_OPTION_NAK, 0, k));
            && Tidy(sid, r) && r.slots == l.slots && FramesOf(r.pkgs) == FramesOf(l.pkgs)
  {
    hide ToPkgIdentityString, Plain;
    assert FramesOf(Response(l, NewHead(sid, PKG_OPTION_NAK, 0, k)).pkgs) == FramesOf(l.pkgs);
  }

  lemma {:induction false} ClearQueue(sid: U32, pkgs: seq<Pkg>)
    requires forall i | 0 <= i < |pkgs| :: Entry(sid, pkgs[i])
    ensures Without(pkgs, sid) == [] && (QueuedData(pkgs) != [] ==> HasData(pkgs, sid))
  {
    hide ToPkgIdentityString, LinkFrame;
    if pkgs != [] {
      ClearQueue(sid, pkgs[1..]);
      assert pkgs == [pkgs[0]] + pkgs[1..];
      ConsQueue(pkgs[0], pkgs[1..]);
      if QueuedData(pkgs[1..]) != [] {
        var i :| 0 <= i < |pkgs[1..]| && pkgs[1..][i].DataOf(sid);
        assert pkgs[i + 1].DataOf(sid);
      } else {
        assert pkgs[0].frame.IsData() ==> pkgs[0].DataOf(sid);
      }
    }
  }

  // A walk of the sender leaves the data packages queued, writes only such packages, and moves
  // acknowledgements from the queue to the line in order.
  lemma {:induction false} ScanQueue(sid: U32, todo: seq<Pkg>, busy: set<U32>, expired: seq<bool>)
    requires |expired| == |todo| && forall i | 0 <= i < |todo| :: Entry(sid, todo[i])
    ensures var w := Scan(todo, busy, expired);
            && (forall i | 0 <= i < |w.pkgs| :: Entry(sid, w.pkgs[i]))
            && LinkFrames(sid, w.frames)
            && QueuedData(w.pkgs) == QueuedData(todo)
            && AcksOf(w.frames) + QueuedAcks(w.pkgs) == QueuedAcks(todo)
            && (forall f :: f in DataOf(w.frames) ==> f in QueuedData(todo))
            && (w.gaveUp.Some? ==> w.gaveUp.value == sid)
    decreases |todo|
  {
    hide Entry, LinkFrame, DataOf, AcksOf, FramesOf, QueuedData, QueuedAcks;
    if todo == [] {
      EmptyWire();
    } else {
      var p, rest := todo[0], todo[1..];
      var w := Scan(todo, busy, expired);
      EntryUpdates(sid, p);
      assert todo == [p] + rest;
      ConsQueue(p, rest);
      if p.status == WaitResponse && expired[0] {
        ConsQueue(w.pkgs[0], rest);
        EmptyWire();
      } else {
        var busy1 := if p.status == WaitSend && (p.response || p.sessionId in busy) then busy else busy + {p.sessionId};
        ScanQueue(sid, rest, busy1, expired[1..]);
        var r := Scan(rest, busy1, expired[1..]);
        ConsWire(p.frame, r.frames);
        if !p.response {
          ConsQueue(w.pkgs[0], r.pkgs);
        }
      }
    }
  }

  lemma EmptyWire()
    ensures DataOf([]) == [] && AcksOf([]) == [] && QueuedAcks([]) == []
  {
  }

  lemma ConsWire(f: Frame, fs: seq<Frame>)
    ensures DataOf([f] + fs) == (if f.IsData() then [f] else []) + DataOf(fs)
    ensures AcksOf([f] + fs) == (if f.IsData() then [] else [f.head.packageIndex]) + AcksOf(fs)
  {
    assert ([f] + fs)[1..] == fs;
  }

  lemma ConsQueue(p: Pkg, pkgs: seq<Pkg>)
    ensures QueuedData([p] + pkgs) == (if p.frame.IsData() then [p.frame] else []) + QueuedData(pkgs)
    ensures QueuedAcks([p] + pkgs) == (if p.frame.IsData() then [] else [p.frame.head.packageIndex]) + QueuedAcks(pkgs)
  {
    assert FramesOf([p] + pkgs)[1..] == FramesOf(pkgs);
  }

  lemma EntryUpdates(sid: U32, p: Pkg)
    requires Entry(sid, p)
    ensures LinkFrame(sid, p.frame) && p.sessionId == sid && p.response == !p.frame.IsData()
    ensures p.response ==> p.status == WaitSend
    ensures !p.response ==> Entry(sid, Transmitted(p))
    ensures p.retryChance > 0 ==> Entry(sid, p.(status := WaitSend, retryChance := p.retryChance - 1))
  {
  }

  // ---- the steps, one by one -----------------------------------------------------------

  // What a step of end a may have done to the two directions.
  predicate After(s: Sys, t: Sys) {
    && t.sid == s.sid && t.b == s.b
    && Tidy(t.sid, t.a.ep.link) && LinkFrames(t.sid, t.ab) && LinkFrames(t.sid, t.ba)
    && FlowOf(t.a, t.b, t.ab, t.ba).Ok() && FlowOf(t.b, t.a, t.ba, t.ab).Ok()
  }

  lemma RequestStep(s: Sys, payload: seq<Byte>, last: bool)
    requires Inv(s) && Enabled(s, Request(payload, last)) && LeavesNoGap(s, AtA(Request(payload, last)))
    ensures After(s, StepA(s, Request(payload, last)))
  {
    hide Flow.Ok, UartQueue.Request, Plain;
    var f := Segment(s.sid, |s.a.requested| + 1, payload, last);
    SegmentIsPlain(s.sid, |s.a.requested| + 1, payload, last);
    RequestQueue(s.sid, s.a.ep.link, f);
    RequestFlow(FlowOf(s.a, s.b, s.ab, s.ba), payload, Checked(f));
  }

  lemma WireGrows(sid: U32, x: seq<Frame>, y: seq<Frame>)
    requires LinkFrames(sid, x) && LinkFrames(sid, y)
    ensures LinkFrames(sid, x + y)
    ensures DataOf(x + y) == DataOf(x) + DataOf(y) && AcksOf(x + y) == AcksOf(x) + AcksOf(y)
  {
    DataConcat(x, y);
    AcksConcat(x, y);
  }

  lemma PassedOn(s: Sys, expired: seq<bool>)
    requires Inv(s) && Enabled(s, SendPkgs(expired))
    requires SendPass(s.a.ep.link, expired).gaveUp.None?
    ensures After(s, StepA(s, SendPkgs(expired)))
  {
    hide Flow.Ok, Scan, LinkFrame, AcksOf, DataOf, FramesOf;
    var w, t := Scan(s.a.ep.link.pkgs, {}, expired), StepA(s, SendPkgs(expired));
    var out, back := FlowOf(s.a, s.b, s.ab, s.ba), FlowOf(s.b, s.a, s.ba, s.ab);
    ScanQueue(s.sid, s.a.ep.link.pkgs, {}, expired);
    WireGrows(s.sid, s.ab, w.frames);
    SendFlow(out, DataOf(w.frames));
    assert FlowOf(t.a, t.b, t.ab, t.ba) == out.(onWire := out.onWire + DataOf(w.frames));
    assert AcksOf(s.ab) + AcksOf(w.frames) + QueuedAcks(w.pkgs) == back.acks;
    assert FlowOf(t.b, t.a, t.ba, t.ab) == back;
  }

  lemma GaveUp(s: Sys, expired: seq<bool>)
    requires Inv(s) && Enabled(s, SendPkgs(expired))
    requires SendPass(s.a.ep.link, expired).gaveUp.Some?
    ensures After(s, StepA(s, SendPkgs(expired)))
  {
    hide Flow.Ok, Scan, LinkFrame, AcksOf, DataOf, FramesOf;
    var w, t := Scan(s.a.ep.link.pkgs, {}, expired), StepA(s, SendPkgs(expired));
    var out, back := FlowOf(s.a, s.b, s.ab, s.ba), FlowOf(s.b, s.a, s.ba, s.ab);
    ScanQueue(s.sid, s.a.ep.link.pkgs, {}, expired);
    WireGrows(s.sid, s.ab, w.frames);
    SendFlow(out, DataOf(w.frames));
    ClearQueue(s.sid, w.pkgs);
    EmptyQueue();
    ClearFlow(out.(onWire := out.onWire + DataOf(w.frames)));
    assert FlowOf(t.a, t.b, t.ab, t.ba) == out.(onWire := out.onWire + DataOf(w.frames), queued := [], cleared := true);
    var acks := AcksOf(s.ab) + AcksOf(w.frames);
    assert acks + QueuedAcks(w.pkgs) == back.acks;
    DropAcksFlow(back, acks);
    assert acks + [] == acks;
    assert FlowOf(t.b, t.a, t.ba, t.ab) == back.(acks := acks);
  }

  lemma EmptyQueue()
    ensures QueuedData([]) == [] && QueuedAcks([]) == []
  {
  }

  lemma WireLoses(sid: U32, x: seq<Frame>, f: Frame, y: seq<Frame>)
    requires LinkFrames(sid, x + [f] + y)
    ensures LinkFrames(sid, x + y)
    ensures DataOf(x + [f] + y) == DataOf(x) + (if f.IsData() then [f] else []) + DataOf(y)
    ensures AcksOf(x + [f] + y) == AcksOf(x) + (if f.IsData() then [] else [f.head.packageIndex]) + AcksOf(y)
    ensures DataOf(x + y) == DataOf(x) + DataOf(y)
    ensures AcksOf(x + y) == AcksOf(x) + AcksOf(y)
  {
    hide LinkFrame, DataOf, AcksOf;
    DataSplit(x, f, y);
    AcksSplit(x, f, y);
    DataConcat(x, y);
    AcksConcat(x, y);
    assert forall k | 0 <= k < |x + y| :: (x + y)[k] == (x + [f] + y)[if k < |x| then k else k + 1];
  }

  lemma LoseStep(s: Sys, i: nat)
    requires Inv(s) && Enabled(s, Lose(i))
    ensures After(s, StepA(s, Lose(i)))
  {
    hide Flow.Ok, LinkFrames, AcksOf, DataOf, FramesOf;
    var x, f, y := s.ab[..i], s.ab[i], s.ab[i + 1..];
    assert s.ab == x + [f] + y;
    WireLoses(s.sid, x, f, y);
    var t := StepA(s, Lose(i));
    var out, back := FlowOf(s.a, s.b, s.ab, s.ba), FlowOf(s.b, s.a, s.ba, s.ab);
    if f.IsData() {
      LoseDataFlow(out, DataOf(x) + DataOf(y), |DataOf(x)|);
      assert FlowOf(t.a, t.b, t.ab, t.ba) == out.(onWire := DataOf(x) + DataOf(y));
      assert FlowOf(t.b, t.a, t.ba, t.ab) == back;
    } else {
      var acks := AcksOf(x) + AcksOf(y) + QueuedAcks(s.a.ep.link.pkgs);
      LoseAckFlow(back, acks, |AcksOf(x)|);
      assert FlowOf(t.a, t.b, t.ab, t.ba) == out;
      assert FlowOf(t.b, t.a, t.ba, t.ab) == back.(acks := acks);
    }
  }

  lemma DeliverDataStep(s: Sys)
    requires Inv(s) && s.ba != [] && s.ba[0].IsData()
    ensures After(s, StepA(s, Deliver))
  {
    hide Flow.Ok, Plain, FramesOf, Respond, AcksOf, DataOf;
    var f, t := s.ba[0], StepA(s, Deliver);
    assert LinkFrame(s.sid, f);
    FirstGoes(s.sid, s.ba);
    var out, back := FlowOf(s.a, s.b, s.ab, s.ba), FlowOf(s.b, s.a, s.ba, s.ab);
    var added := RespondQueue(s.sid, s.a.ep.link, f.head.packageIndex);
    assert t.a.ep.link == Respond(s.a.ep.link, s.sid, f.head.packageIndex, PKG_OPTION_ACK);
    TakeFlow(back, added);
    assert FlowOf(t.b, t.a, t.ba, t.ab) == Taken(back, added);
    assert FlowOf(t.a, t.b, t.ab, t.ba) == out;
  }

  lemma FirstGoes(sid: U32, fs: seq<Frame>)
    requires LinkFrames(sid, fs) && fs != []
    ensures LinkFrames(sid, fs[1..])
    ensures DataOf(fs) == (if fs[0].IsData() then [fs[0]] else []) + DataOf(fs[1..])
    ensures AcksOf(fs) == (if fs[0].IsData() then [] else [fs[0].head.packageIndex]) + AcksOf(fs[1..])
  {
  }

  lemma DeliverAckStep(s: Sys)
    requires Inv(s) && s.ba != [] && !s.ba[0].IsData()
    ensures After(s, StepA(s, Deliver))
  {
    hide Plain, FramesOf, Response, Flow.Ok, AcksOf, DataOf;
    var f, t := s.ba[0], StepA(s, Deliver);
    assert LinkFrame(s.sid, f);
    FirstGoes(s.sid, s.ba);
    var out, back := FlowOf(s.a, s.b, s.ab, s.ba), FlowOf(s.b, s.a, s.ba, s.ab);
    OnlyCurrentQueued(out);
    AckQueue(s.sid, s.a.ep.link, f.head);
    AckFlow(out);
    assert t.a.ep.link == Response(s.a.ep.link, f.head);
    assert out.acks[0] == f.head.packageIndex;
    assert out.acks[1..] == AcksOf(s.ba[1..]) + QueuedAcks(s.b.ep.link.pkgs);
    assert FlowOf(t.b, t.a, t.ba, t.ab) == back;
    assert FlowOf(t.a, t.b, t.ab, t.ba) ==
           out.(acks := out.acks[1..], queued := QueuedData(t.a.ep.link.pkgs));
  }

  lemma NakStep(s: Sys, k: U32)
    requires Inv(s)
    ensures After(s, StepA(s, StrayNak(k)))
  {
    hide Flow.Ok, Plain, Response;
    NakQueue(s.sid, s.a.ep.link, k);
    var t := StepA(s, StrayNak(k));
    assert FlowOf(t.a, t.b, t.ab, t.ba) == FlowOf(s.a, s.b, s.ab, s.ba);
    assert FlowOf(t.b, t.a, t.ba, t.ab) == FlowOf(s.b, s.a, s.ba, s.ab);
  }

  lemma StopStep(s: Sys)
    requires Inv(s)
    ensures After(s, StepA(s, Stop))
  {
    hide Flow.Ok, Plain, FramesOf;
    ClearQueue(s.sid, s.a.ep.link.pkgs);
    EmptyQueue();
    ClearFlow(FlowOf(s.a, s.b, s.ab, s.ba));
    DropAcksFlow(FlowOf(s.b, s.a, s.ba, s.ab), AcksOf(s.ab));
    assert AcksOf(s.ab) + [] == AcksOf(s.ab);
  }

  lemma StepAKeeps(s: Sys, e: Event)
    requires Inv(s) && Enabled(s, e) && LeavesNoGap(s, AtA(e))
    ensures Inv(StepA(s, e))
  {
    hide StepA, SendPass, Tidy, LinkFrames, Flow.Ok;
    match e
    case Request(payload, last) => RequestStep(s, payload, last);
    case SendPkgs(expired) =>
      if SendPass(s.a.ep.link, expired).gaveUp.Some? { GaveUp(s, expired); } else { PassedOn(s, expired); }
    case Lose(i) => LoseStep(s, i);
    case Deliver => if s.ba[0].IsData() { DeliverDataStep(s); } else { DeliverAckStep(s); }
    case StrayNak(k) => NakStep(s, k);
    case Stop => StopStep(s);
  }

  lemma StepKeeps(s: Sys, act: Action)
    requires Inv(s) && CanStep(s, act) && LeavesNoGap(s, act)
    ensures Inv(Step(s, act))
  {
    hide StepA, Tidy, LinkFrames, Flow.Ok, FlowOf;
    match act
    case AtA(e) => StepAKeeps(s, e);
    case AtB(e) => StepAKeeps(s.Flip(), e);
  }

  lemma {:induction false} RunKeeps(s: Sys, acts: seq<Action>)
    requires Inv(s) && Feasible(s, acts) && Guarded(s, acts)
    ensures Inv(Run(s, acts))
    decreases |acts|
  {
    hide Inv, Step, CanStep, LeavesNoGap;
    if acts != [] {
      StepKeeps(s, acts[0]);
      RunKeeps(Step(s, acts[0]), acts[1..]);
    }
  }

  lemma StartIsFine(sid: U32)
    ensures Inv(Start(sid))
  {
  }

  // ---- the promise of the link -------------------------------------------------------------

  // Over every run in which nothing is requested of a session already given up while the peer lacks a
  // payload, whatever is lost, resent, acknowledged twice or NAKed: each end has dispatched a prefix of
  // what the other was asked to carry, so each payload once and in order.
  lemma DeliveredIsPrefix(sid: U32, acts: seq<Action>)
    requires Feasible(Start(sid), acts) && Guarded(Start(sid), acts)
    ensures var s := Run(Start(sid), acts);
            && s.b.ep.delivered <= s.a.requested
            && s.a.ep.delivered <= s.b.requested
  {
    hide Run, Feasible, Guarded;
    StartIsFine(sid);
    RunKeeps(Start(sid), acts);
  }

  // In such a run the sender has no data package left in its queue, and was not given up, only when
  // the receiver has dispatched every payload: no package is erased by an ACK before it was accepted.
  lemma ErasedMeansAccepted(sid: U32, acts: seq<Action>)
    requires Feasible(Start(sid), acts) && Guarded(Start(sid), acts)
    ensures var s := Run(Start(sid), acts);
            (forall i | 0 <= i < |s.a.ep.link.pkgs| :: s.a.ep.link.pkgs[i].response) && !s.a.cleared
            ==> s.b.ep.delivered == s.a.requested
  {
    hide Run, Feasible, Guarded;
    StartIsFine(sid);
    RunKeeps(Start(sid), acts);
    var s := Run(Start(sid), acts);
    if forall i | 0 <= i < |s.a.ep.link.pkgs| :: s.a.ep.link.pkgs[i].response {
      OnlyResponsesQueued(s.sid, s.a.ep.link.pkgs);
    }
  }

  lemma OnlyResponsesQueued(sid: U32, pkgs: seq<Pkg>)
    requires forall i | 0 <= i < |pkgs| :: Entry(sid, pkgs[i]) && pkgs[i].response
    ensures QueuedData(pkgs) == []
  {
    if QueuedData(pkgs) != [] {
      var f := QueuedData(pkgs)[0];
      DataAreMembers(FramesOf(pkgs), f);
    }
  }
}

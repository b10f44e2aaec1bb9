/** What every run of the output queue keeps. */
module UartScheduler {
  import opened Bytes
  import opened UartHead
  import opened UartQueue

  // ---- runs -------------------------------------------------------------------

  datatype Event =
    | EnqueueEvent(frame: Frame, queue: bool)
    | ResponseEvent(head: Head)
    | ClearEvent(sid: U32)
    | PassEvent(expired: seq<bool>)

  predicate Enabled(l: Link, e: Event) {
    match e
    case EnqueueEvent(f, queue) => f.Sized() && SlotFree(l, f.head.sessionId, queue)
    case ResponseEvent(_) => true
    case ClearEvent(_) => true
    case PassEvent(expired) => |expired| == |l.pkgs|
  }

  function Step(l: Link, e: Event): Link
    requires Enabled(l, e)
  {
    match e
    case EnqueueEvent(f, queue) => Request(l, f, queue)
    case ResponseEvent(h) => Response(l, h)
    case ClearEvent(sid) => Clear(l, sid)
    case PassEvent(expired) => SendPass(l, expired).link
  }

  predicate Feasible(l: Link, es: seq<Event>)
    decreases |es|
  {
    es == [] || (Enabled(l, es[0]) && Feasible(Step(l, es[0]), es[1..]))
  }

  function Run(l: Link, es: seq<Event>): Link
    requires Feasible(l, es)
    decreases |es|
  {
    if es == [] then l else Run(Step(l, es[0]), es[1..])
  }

  // ---- the invariant ------------------------------------------------------------

  // Transmissions are paid for by retries, NAKs and the response now awaited.
  predicate Accounted(p: Pkg) {
    && p.retryChance <= RETRY_CHANCE
    && p.sent == (RETRY_CHANCE - p.retryChance) + p.naks + (if p.status == WaitResponse then 1 else 0)
  }

  // The queue entry tells the truth about the package it holds.
  predicate Labelled(p: Pkg) {
    && p.key == KeyOf(p.frame.head)
    && p.sessionId == p.frame.head.sessionId
    && p.response == p.frame.head.IsResponsePackage()
    && p.ack == p.frame.head.HasOption(PKG_OPTION_ACK)
    && (p.response ==> p.status == WaitSend && p.sent == 0)
  }

  // No data package of the same session stands before position i.
  predicate Oldest(pkgs: seq<Pkg>, i: nat)
    requires i < |pkgs|
  {
    forall j | 0 <= j < i :: !pkgs[j].DataOf(pkgs[i].sessionId)
  }

  predicate SentAreOldest(pkgs: seq<Pkg>) {
    forall i | 0 <= i < |pkgs| :: pkgs[i].sent > 0 ==> !pkgs[i].response && Oldest(pkgs, i)
  }

  predicate KeysDistinct(pkgs: seq<Pkg>) {
    forall i, j | 0 <= i < j < |pkgs| :: pkgs[i].key != pkgs[j].key
  }

  predicate Entries(pkgs: seq<Pkg>) {
    forall i | 0 <= i < |pkgs| :: Accounted(pkgs[i]) && Labelled(pkgs[i])
  }

  predicate Good(pkgs: seq<Pkg>) {
    Entries(pkgs) && KeysDistinct(pkgs) && SentAreOldest(pkgs)
  }

  // ---- the three ways a queue changes ------------------------------------------

  lemma GoodRemove(a: seq<Pkg>, p: Pkg, b: seq<Pkg>)
    requires Good(a + [p] + b)
    ensures Good(a + b)
  {
    hide ToPkgIdentityString;
    var x, y := a + [p] + b, a + b;
    forall i | 0 <= i < |y| && y[i].sent > 0
      ensures !y[i].response && Oldest(y, i)
    {
      var k := if i < |a| then i else i + 1;
      assert y[i] == x[k];
      forall j | 0 <= j < i
        ensures !y[j].DataOf(y[i].sessionId)
      {
        assert y[j] == x[if j < |a| then j else j + 1];
      }
    }
    forall i | 0 <= i < |y|
      ensures Accounted(y[i]) && Labelled(y[i])
    {
      assert y[i] == x[if i < |a| then i else i + 1];
    }
    forall i, j | 0 <= i < j < |y|
      ensures y[i].key != y[j].key
    {
      assert y[i] == x[if i < |a| then i else i + 1];
      assert y[j] == x[if j < |a| then j else j + 1];
    }
  }

  predicate SameIdentity(p: Pkg, q: Pkg) {
    p.key == q.key && p.sessionId == q.sessionId && p.response == q.response
  }

  lemma GoodReplace(a: seq<Pkg>, p: Pkg, q: Pkg, b: seq<Pkg>)
    requires Good(a + [p] + b)
    requires SameIdentity(p, q) && Accounted(q) && Labelled(q)
    requires q.sent > 0 ==> !q.response && forall j | 0 <= j < |a| :: !a[j].DataOf(q.sessionId)
    ensures Good(a + [q] + b)
  {
    hide ToPkgIdentityString;
    var x, y := a + [p] + b, a + [q] + b;
    assert forall i | 0 <= i < |y| :: i != |a| ==> y[i] == x[i];
    assert x[|a|] == p && y[|a|] == q;
    assert forall i | 0 <= i < |y| :: SameIdentity(x[i], y[i]);
    forall i | 0 <= i < |y| && y[i].sent > 0
      ensures !y[i].response && Oldest(y, i)
    {
      if i == |a| {
        assert forall j | 0 <= j < i :: y[j] == a[j];
      } else {
        assert Oldest(x, i);
        forall j | 0 <= j < i
          ensures !y[j].DataOf(y[i].sessionId)
        {
          assert SameIdentity(x[j], y[j]);
          assert !x[j].DataOf(x[i].sessionId);
        }
      }
    }
    forall i, j | 0 <= i < j < |y|
      ensures y[i].key != y[j].key
    {
      assert x[i].key != x[j].key;
    }
  }

  lemma GoodAppend(a: seq<Pkg>, f: Frame)
    requires Good(a) && f.Sized()
    requires Find(a, KeyOf(f.head)).None?
    ensures Good(a + [NewPkg(f)])
  {
    hide ToPkgIdentityString;
    var y := a + [NewPkg(f)];
    assert Checked(f).head.HasOption(PKG_OPTION_ACK) == f.head.HasOption(PKG_OPTION_ACK);
    forall i | 0 <= i < |y| && y[i].sent > 0
      ensures !y[i].response && Oldest(y, i)
    {
      assert y[i] == a[i];
      assert Oldest(a, i);
    }
  }

  // ---- each operation ----------------------------------------------------------

  lemma RequestKeeps(l: Link, f: Frame, queue: bool)
    requires Good(l.pkgs) && f.Sized() && SlotFree(l, f.head.sessionId, queue)
    ensures Good(Request(l, f, queue).pkgs)
  {
    hide ToPkgIdentityString;
    if Find(l.pkgs, KeyOf(f.head)).None? {
      GoodAppend(l.pkgs, f);
    }
  }

  lemma ResponseKeeps(l: Link, h: Head)
    requires Good(l.pkgs)
    ensures Good(Response(l, h).pkgs)
  {
    hide ToPkgIdentityString;
    var key := ToPkgIdentityString(false, h.sessionId, h.packageIndex);
    match Find(l.pkgs, key)
    case None =>
    case Some(i) =>
      var a, p, b := l.pkgs[..i], l.pkgs[i], l.pkgs[i + 1..];
      assert l.pkgs == a + [p] + b;
      if h.HasOption(PKG_OPTION_ACK) {
        GoodRemove(a, p, b);
      } else {
        KeyInjective(p.response, p.sessionId, p.frame.head.packageIndex, false, h.sessionId, h.packageIndex);
        assert l.pkgs[i := Renew(p)] == a + [Renew(p)] + b;
        assert p.sent > 0 ==> Oldest(l.pkgs, i);
        assert forall j | 0 <= j < |a| :: a[j] == l.pkgs[j];
        GoodReplace(a, p, Renew(p), b);
      }
  }

  lemma {:induction false} ClearKeeps(done: seq<Pkg>, todo: seq<Pkg>, sid: U32)
    requires Good(done + todo)
    ensures Good(done + Without(todo, sid))
    decreases |todo|
  {
    hide ToPkgIdentityString;
    if todo == [] {
      assert done + [] == done;
    } else {
      var p, rest := todo[0], todo[1..];
      assert done + todo == done + [p] + rest;
      if p.sessionId == sid {
        GoodRemove(done, p, rest);
        ClearKeeps(done, rest, sid);
      } else {
        ClearKeeps(done + [p], rest, sid);
        assert done + Without(todo, sid) == done + [p] + Without(rest, sid);
      }
    }
  }

  // `busy` has every session with a data package in front.
  predicate Covers(busy: set<U32>, done: seq<Pkg>) {
    forall j | 0 <= j < |done| :: !done[j].response ==> done[j].sessionId in busy
  }

  // The walk over the rest goes on with `busy1` behind `done1`.
  lemma WalkOn(done: seq<Pkg>, p: Pkg, rest: seq<Pkg>, busy: set<U32>)
    requires Good(done + ([p] + rest)) && Covers(busy, done)
    ensures Good(done + [p] + rest)
    ensures p.response || p.sessionId in busy ==> Covers(busy, done + [p])
    ensures Covers(busy + {p.sessionId}, done + [p])
    ensures Good(done + rest)
  {
    hide ToPkgIdentityString;
    assert done + ([p] + rest) == done + [p] + rest;
    GoodRemove(done, p, rest);
  }

  lemma SendOldest(done: seq<Pkg>, p: Pkg, rest: seq<Pkg>, busy: set<U32>)
    requires Good(done + [p] + rest) && Covers(busy, done)
    requires p.status == WaitSend && !p.response && p.sessionId !in busy
    ensures Good(done + [Transmitted(p)] + rest)
    ensures Covers(busy + {p.sessionId}, done + [Transmitted(p)])
  {
    hide ToPkgIdentityString;
    assert (done + [p] + rest)[|done|] == p;
    GoodReplace(done, p, Transmitted(p), rest);
  }

  lemma RetryOldest(done: seq<Pkg>, p: Pkg, rest: seq<Pkg>)
    requires Good(done + [p] + rest)
    requires p.status == WaitResponse && p.retryChance > 0
    ensures Good(done + [p.(status := WaitSend, retryChance := p.retryChance - 1)] + rest)
  {
    hide ToPkgIdentityString;
    var x := done + [p] + rest;
    assert x[|done|] == p;
    assert Accounted(p) && Oldest(x, |done|);
    assert forall j | 0 <= j < |done| :: x[j] == done[j];
    GoodReplace(done, p, p.(status := WaitSend, retryChance := p.retryChance - 1), rest);
  }

  lemma {:induction false} ScanKeeps(done: seq<Pkg>, todo: seq<Pkg>, busy: set<U32>, expired: seq<bool>)
    requires |expired| == |todo|
    requires Good(done + todo) && Covers(busy, done)
    ensures Good(done + Scan(todo, busy, expired).pkgs)
    decreases |todo|
  {
    hide Good, Covers;
    if todo == [] {
      assert done + [] == done;
    } else {
      var p, rest, w := todo[0], todo[1..], Scan(todo, busy, expired);
      assert todo == [p] + rest;
      WalkOn(done, p, rest, busy);
      if p.status == WaitSend {
        if p.response {
          ScanKeeps(done, rest, busy, expired[1..]);
        } else if p.sessionId in busy {
          ScanKeeps(done + [p], rest, busy, expired[1..]);
          assert done + w.pkgs == done + [p] + Scan(rest, busy, expired[1..]).pkgs;
        } else {
          SendOldest(done, p, rest, busy);
          ScanKeeps(done + [Transmitted(p)], rest, busy + {p.sessionId}, expired[1..]);
          assert done + w.pkgs == done + [Transmitted(p)] + Scan(rest, busy + {p.sessionId}, expired[1..]).pkgs;
        }
      } else if !expired[0] {
        ScanKeeps(done + [p], rest, busy + {p.sessionId}, expired[1..]);
        assert done + w.pkgs == done + [p] + Scan(rest, busy + {p.sessionId}, expired[1..]).pkgs;
      } else if p.retryChance > 0 {
        RetryOldest(done, p, rest);
        assert done + w.pkgs == done + [p.(status := WaitSend, retryChance := p.retryChance - 1)] + rest;
      }
    }
  }

  lemma ClearedStaysGood(pkgs: seq<Pkg>, sid: U32)
    requires Good(pkgs)
    ensures Good(Without(pkgs, sid))
  {
    hide Good;
    assert [] + pkgs == pkgs;
    ClearKeeps([], pkgs, sid);
    assert [] + Without(pkgs, sid) == Without(pkgs, sid);
  }

  lemma PassKeeps(l: Link, expired: seq<bool>)
    requires Good(l.pkgs) && |expired| == |l.pkgs|
    ensures Good(SendPass(l, expired).link.pkgs)
  {
    hide Good, Scan;
    var w := Scan(l.pkgs, {}, expired);
    assert [] + l.pkgs == l.pkgs;
    ScanKeeps([], l.pkgs, {}, expired);
    assert [] + w.pkgs == w.pkgs;
    if w.gaveUp.Some? {
      ClearedStaysGood(w.pkgs, w.gaveUp.value);
    }
  }

  lemma StepKeeps(l: Link, e: Event)
    requires Good(l.pkgs) && Enabled(l, e)
    ensures Good(Step(l, e).pkgs)
  {
    hide Good, SendPass, Response, Request;
    match e
    case EnqueueEvent(f, queue) => RequestKeeps(l, f, queue);
    case ResponseEvent(h) => ResponseKeeps(l, h);
    case ClearEvent(sid) => ClearedStaysGood(l.pkgs, sid);
    case PassEvent(expired) => PassKeeps(l, expired);
  }

  lemma {:induction false} RunKeeps(l: Link, es: seq<Event>)
    requires Good(l.pkgs) && Feasible(l, es)
    ensures Good(Run(l, es).pkgs)
    decreases |es|
  {
    if es != [] {
      StepKeeps(l, es[0]);
      RunKeeps(Step(l, es[0]), es[1..]);
    }
  }

  // ---- what a run guarantees -----------------------------------------------------

  ghost predicate Reachable(l: Link) {
    exists es :: Feasible(EMPTY_LINK, es) && Run(EMPTY_LINK, es) == l
  }

  lemma ReachableIsGood(l: Link)
    requires Reachable(l)
    ensures Good(l.pkgs)
  {
    var es :| Feasible(EMPTY_LINK, es) && Run(EMPTY_LINK, es) == l;
    RunKeeps(EMPTY_LINK, es);
  }

  // Over every run, a package awaiting its response is the oldest data package of its session, so
  // no session has two of them.
  lemma OutstandingIsOldest(l: Link, i: nat, j: nat)
    requires Reachable(l)
    requires i < |l.pkgs| && j < |l.pkgs| && l.pkgs[i].status == WaitResponse
    ensures !l.pkgs[i].response
    ensures j < i ==> !l.pkgs[j].DataOf(l.pkgs[i].sessionId)
    ensures l.pkgs[j].status == WaitResponse && l.pkgs[j].sessionId == l.pkgs[i].sessionId ==> i == j
  {
    ReachableIsGood(l);
    assert Accounted(l.pkgs[i]) && Accounted(l.pkgs[j]);
    assert Oldest(l.pkgs, i);
    if l.pkgs[j].status == WaitResponse {
      assert Oldest(l.pkgs, j);
    }
  }

  lemma {:induction false} ScanWritesOldest(done: seq<Pkg>, todo: seq<Pkg>, busy: set<U32>, expired: seq<bool>, f: Frame)
    requires |expired| == |todo|
    requires Covers(busy, done)
    requires f in Scan(todo, busy, expired).frames && f.IsData()
    requires forall i | 0 <= i < |todo| :: Labelled(todo[i])
    ensures exists i :: |done| <= i < |done + todo| && (done + todo)[i].frame == f && Oldest(done + todo, i)
    decreases |todo|
  {
    hide ToPkgIdentityString;
    var p, rest := todo[0], todo[1..];
    var x := done + todo;
    assert x == done + [p] + rest;
    assert x[|done|] == p;
    var sends := p.status == WaitSend && !p.response && p.sessionId !in busy;
    if sends && p.frame == f {
      assert forall j | 0 <= j < |done| :: x[j] == done[j];
      assert Oldest(x, |done|);
    } else {
      assert p.response ==> p.frame != f;
      var busy1 := if p.response || (p.status == WaitSend && p.sessionId in busy) then busy else busy + {p.sessionId};
      ScanWritesOldest(done + [p], rest, busy1, expired[1..], f);
    }
  }

  lemma OnlyOldestWasSent(pkgs: seq<Pkg>, i: nat)
    requires Good(pkgs) && i < |pkgs| && !pkgs[i].response && Oldest(pkgs, i)
    ensures forall j | 0 <= j < |pkgs| && j != i && pkgs[j].DataOf(pkgs[i].sessionId) :: pkgs[j].sent == 0
  {
    forall j | 0 <= j < |pkgs| && pkgs[j].DataOf(pkgs[i].sessionId) && pkgs[j].sent > 0
      ensures j == i
    {
      assert Oldest(pkgs, j);
      assert pkgs[i].DataOf(pkgs[j].sessionId);
    }
  }

  // Over every run, a pass writes a data package only when no older data package of its session is
  // still queued, and no other one of the session was ever written: first transmissions follow
  // queue order.
  lemma WritesFollowQueueOrder(l: Link, expired: seq<bool>, f: Frame) returns (i: nat)
    requires Reachable(l) && |expired| == |l.pkgs|
    requires f in SendPass(l, expired).frames && f.IsData()
    ensures i < |l.pkgs| && l.pkgs[i].frame == f && Oldest(l.pkgs, i)
    ensures forall j | 0 <= j < |l.pkgs| && j != i && l.pkgs[j].DataOf(l.pkgs[i].sessionId) :: l.pkgs[j].sent == 0
  {
    hide ToPkgIdentityString;
    ReachableIsGood(l);
    ScanWritesOldest([], l.pkgs, {}, expired, f);
    assert [] + l.pkgs == l.pkgs;
    i :| 0 <= i < |l.pkgs| && l.pkgs[i].frame == f && Oldest(l.pkgs, i);
    assert Labelled(l.pkgs[i]);
    OnlyOldestWasSent(l.pkgs, i);
  }

  // ---- exactly what a pass sends ------------------------------------------------------

  // Waits to be sent, and is a response or the oldest data package of its session.
  predicate Due(pkgs: seq<Pkg>, i: nat)
    requires i < |pkgs|
  {
    pkgs[i].status == WaitSend && (pkgs[i].response || Oldest(pkgs, i))
  }

  function DueFrames(pkgs: seq<Pkg>): seq<Frame> {
    if pkgs == [] then []
    else DueFrames(pkgs[..|pkgs| - 1]) + (if Due(pkgs, |pkgs| - 1) then [pkgs[|pkgs| - 1].frame] else [])
  }

  // The first package found to have waited its full time, or the end of the queue.
  predicate FirstTimeout(pkgs: seq<Pkg>, expired: seq<bool>, k: nat)
    requires |expired| == |pkgs|
  {
    && k <= |pkgs| && (forall i | 0 <= i < k :: pkgs[i].status == WaitSend || !expired[i])
    && (k < |pkgs| ==> pkgs[k].status == WaitResponse && expired[k])
  }

  // `busy` holds exactly the sessions with data in front.
  ghost predicate Holds(busy: set<U32>, done: seq<Pkg>) {
    forall s: U32 :: s in busy <==> HasData(done, s)
  }

  lemma HasDataAppend(done: seq<Pkg>, p: Pkg, s: U32)
    ensures HasData(done + [p], s) <==> HasData(done, s) || p.DataOf(s)
  {
    var x := done + [p];
    assert forall i | 0 <= i < |done| :: x[i] == done[i];
    assert x[|done|] == p;
  }

  lemma DueAppend(done: seq<Pkg>, p: Pkg, busy: set<U32>)
    requires Holds(busy, done)
    ensures DueFrames(done + [p]) ==
            DueFrames(done) + (if p.status == WaitSend && (p.response || p.sessionId !in busy) then [p.frame] else [])
    ensures Holds(if p.response then busy else busy + {p.sessionId}, done + [p])
  {
    hide HasData;
    var x := done + [p];
    assert x[..|done|] == done && x[|done|] == p;
    assert Oldest(x, |done|) <==> !HasData(done, p.sessionId) by { OldestIs(done, p); }
    forall s: U32 ensures HasData(x, s) <==> HasData(done, s) || p.DataOf(s) {
      HasDataAppend(done, p, s);
    }
  }

  lemma OldestIs(done: seq<Pkg>, p: Pkg)
    ensures Oldest(done + [p], |done|) <==> !HasData(done, p.sessionId)
  {
    var x := done + [p];
    assert forall i | 0 <= i < |done| :: x[i] == done[i];
    assert x[|done|] == p;
  }

  lemma {:induction false} ScanSendsDue(done: seq<Pkg>, todo: seq<Pkg>, busy: set<U32>, expired: seq<bool>, k: nat)
    requires |expired| == |todo| && Holds(busy, done) && FirstTimeout(todo, expired, k)
    requires forall i | 0 <= i < |todo| :: todo[i].response ==> todo[i].status == WaitSend
    ensures DueFrames(done) + Scan(todo, busy, expired).frames == DueFrames(done + todo[..k])
    decreases |todo|
  {
    hide Holds, DueFrames;
    if k == 0 {
      assert todo[..0] == [] && done + [] == done;
      assert DueFrames(done) + [] == DueFrames(done);
    } else {
      var p, rest := todo[0], todo[1..];
      var busy1 := if p.response || (p.status == WaitSend && p.sessionId in busy) then busy else busy + {p.sessionId};
      DueAppend(done, p, busy);
      assert p.sessionId in busy ==> busy + {p.sessionId} == busy;
      ScanSendsDue(done + [p], rest, busy1, expired[1..], k - 1);
      assert done + todo[..k] == done + [p] + rest[..k - 1];
      SentFirst(DueFrames(done), p.frame, Scan(rest, busy1, expired[1..]).frames);
    }
  }

  lemma {:induction false} ScanStops(todo: seq<Pkg>, busy: set<U32>, expired: seq<bool>, k: nat)
    requires |expired| == |todo| && FirstTimeout(todo, expired, k)
    requires forall i | 0 <= i < |todo| :: todo[i].response ==> todo[i].status == WaitSend
    ensures var w := Scan(todo, busy, expired);
            && w.gaveUp == (if k < |todo| && todo[k].retryChance == 0 then Some(todo[k].sessionId) else None)
            && (k < |todo| ==> |w.pkgs| >= |todo| - k && w.pkgs[|w.pkgs| - (|todo| - k) + 1..] == todo[k + 1..])
    decreases |todo|
  {
    if k > 0 {
      var p, rest := todo[0], todo[1..];
      var busy1 := if p.response || (p.status == WaitSend && p.sessionId in busy) then busy else busy + {p.sessionId};
      assert p.sessionId in busy ==> busy + {p.sessionId} == busy;
      ScanStops(rest, busy1, expired[1..], k - 1);
      var w, r := Scan(todo, busy, expired).pkgs, Scan(rest, busy1, expired[1..]).pkgs;
      assert w == r || w[1..] == r;
    }
  }

  lemma SentFirst(a: seq<Frame>, f: Frame, b: seq<Frame>)
    ensures a + ([f] + b) == a + [f] + b && a + [] + b == a + b
  {
  }

  // Over every run a pass writes the responses and the oldest data packages that wait, in the order of
  // the queue, up to the first package that has timed out; there it ends, with what is behind untouched,
  // and gives its session up exactly if no retry is left.
  lemma PassSendsDue(l: Link, expired: seq<bool>, k: nat)
    requires Reachable(l) && |expired| == |l.pkgs| && FirstTimeout(l.pkgs, expired, k)
    ensures var r := SendPass(l, expired);
            && r.frames == DueFrames(l.pkgs[..k])
            && r.gaveUp == (if k < |l.pkgs| && l.pkgs[k].retryChance == 0 then Some(l.pkgs[k].sessionId) else None)
            && (k < |l.pkgs| && r.gaveUp.None? ==>
                 && |r.link.pkgs| >= |l.pkgs| - k
                 && r.link.pkgs[|r.link.pkgs| - (|l.pkgs| - k) + 1..] == l.pkgs[k + 1..])
  {
    hide Scan, DueFrames, ToPkgIdentityString, Without;
    ReachableIsGood(l);
    forall i | 0 <= i < |l.pkgs| ensures l.pkgs[i].response ==> l.pkgs[i].status == WaitSend {
      assert Labelled(l.pkgs[i]);
    }
    assert [] + l.pkgs[..k] == l.pkgs[..k];
    NothingDue();
    ScanSendsDue([], l.pkgs, {}, expired, k);
    ScanStops(l.pkgs, {}, expired, k);
  }

  lemma NothingDue()
    ensures DueFrames([]) == [] && Holds({}, [])
    ensures forall fs: seq<Frame> :: [] + fs == fs
  {
  }

  // Over every run each queued package has gone out once per retry used, once per NAK taken while it
  // waited, and once more if a response is awaited now: at most five times without NAKs.
  lemma RetryAccounting(l: Link, i: nat)
    requires Reachable(l) && i < |l.pkgs|
    ensures var p := l.pkgs[i];
            && p.sent == (RETRY_CHANCE - p.retryChance) + p.naks + (if p.status == WaitResponse then 1 else 0)
            && p.sent <= 5 + p.naks
  {
    ReachableIsGood(l);
    assert Accounted(l.pkgs[i]);
  }

  lemma {:induction false} GaveUpOn(todo: seq<Pkg>, busy: set<U32>, expired: seq<bool>)
    requires |expired| == |todo| && Entries(todo)
    requires Scan(todo, busy, expired).gaveUp.Some?
    ensures exists i :: 0 <= i < |todo| && todo[i].sessionId == Scan(todo, busy, expired).gaveUp.value
                     && expired[i] && todo[i].status == WaitResponse && todo[i].sent == 5 + todo[i].naks
    decreases |todo|
  {
    hide ToPkgIdentityString;
    var p := todo[0];
    if p.status == WaitResponse && expired[0] {
      assert Accounted(p);
    } else {
      var busy1 := if p.response || (p.status == WaitSend && p.sessionId in busy) then busy else busy + {p.sessionId};
      if p.status == WaitResponse { assert Labelled(p); }
      GaveUpOn(todo[1..], busy1, expired[1..]);
      var i :| 0 <= i < |todo[1..]| && todo[1..][i].sessionId == Scan(todo[1..], busy1, expired[1..]).gaveUp.value
               && expired[1..][i] && todo[1..][i].status == WaitResponse && todo[1..][i].sent == 5 + todo[1..][i].naks;
      assert todo[i + 1] == todo[1..][i] && expired[i + 1] == expired[1..][i];
    }
  }

  lemma {:induction false} WithoutLeavesNone(pkgs: seq<Pkg>, sid: U32)
    ensures forall i | 0 <= i < |Without(pkgs, sid)| :: Without(pkgs, sid)[i].sessionId != sid
    ensures forall p :: p in Without(pkgs, sid) <==> p in pkgs && p.sessionId != sid
  {
    if pkgs != [] {
      WithoutLeavesNone(pkgs[1..], sid);
      assert pkgs == [pkgs[0]] + pkgs[1..];
    }
  }

  // A session is given up only after its package went out five times (plus once per NAK) and timed
  // out; then none of its packages is left.
  lemma GiveUpAfterFive(l: Link, expired: seq<bool>) returns (i: nat)
    requires Reachable(l) && |expired| == |l.pkgs|
    requires SendPass(l, expired).gaveUp.Some?
    ensures var r := SendPass(l, expired);
            && i < |l.pkgs| && l.pkgs[i].sessionId == r.gaveUp.value
            && expired[i] && l.pkgs[i].status == WaitResponse && l.pkgs[i].sent == 5 + l.pkgs[i].naks
            && forall p | p in r.link.pkgs :: p.sessionId != r.gaveUp.value
  {
    ReachableIsGood(l);
    GaveUpOn(l.pkgs, {}, expired);
    var w := Scan(l.pkgs, {}, expired);
    WithoutLeavesNone(w.pkgs, w.gaveUp.value);
    i :| 0 <= i < |l.pkgs| && l.pkgs[i].sessionId == w.gaveUp.value
         && expired[i] && l.pkgs[i].status == WaitResponse && l.pkgs[i].sent == 5 + l.pkgs[i].naks;
  }

  // Over every run no two queued packages agree on (response, session, index).
  lemma QueueIdentity(l: Link, i: nat, j: nat)
    requires Reachable(l) && i < j < |l.pkgs|
    ensures var p, q := l.pkgs[i], l.pkgs[j];
            && p.key != q.key
            && !(p.response == q.response && p.sessionId == q.sessionId
                 && p.frame.head.packageIndex == q.frame.head.packageIndex)
  {
    hide ToPkgIdentityString;
    ReachableIsGood(l);
    var p, q := l.pkgs[i], l.pkgs[j];
    assert Labelled(p) && Labelled(q);
    KeyInjective(p.response, p.sessionId, p.frame.head.packageIndex, q.response, q.sessionId, q.frame.head.packageIndex);
  }

  // ---- slots ---------------------------------------------------------------------

  // Sessions of the queued data packages, in queue order.
  function DataSessions(pkgs: seq<Pkg>): seq<U32> {
    if pkgs == [] then []
    else (if pkgs[0].response then [] else [pkgs[0].sessionId]) + DataSessions(pkgs[1..])
  }

  predicate NoRepeats(s: seq<U32>) {
    forall i, j | 0 <= i < j < |s| :: s[i] != s[j]
  }

  ghost predicate SlotsMatch(l: Link) {
    && NoRepeats(DataSessions(l.pkgs))
    && forall s :: s in l.slots <==> s in DataSessions(l.pkgs)
  }

  // Only data packages are queued through a slot, and all of them are.
  predicate Disciplined(es: seq<Event>) {
    forall i | 0 <= i < |es| && es[i].EnqueueEvent? :: es[i].queue == es[i].frame.IsData()
  }

  lemma {:induction false} DataSessionsConcat(a: seq<Pkg>, b: seq<Pkg>)
    ensures DataSessions(a + b) == DataSessions(a) + DataSessions(b)
  {
    if a == [] {
      assert a + b == b;
    } else {
      assert (a + b)[1..] == a[1..] + b;
      DataSessionsConcat(a[1..], b);
    }
  }

  lemma {:induction false} DataSessionsMean(pkgs: seq<Pkg>, s: U32)
    ensures s in DataSessions(pkgs) <==> HasData(pkgs, s)
  {
    if pkgs != [] {
      DataSessionsMean(pkgs[1..], s);
      assert pkgs[0].DataOf(s) ==> HasData(pkgs, s);
      if HasData(pkgs[1..], s) {
        var i :| 0 <= i < |pkgs[1..]| && pkgs[1..][i].DataOf(s);
        assert pkgs[i + 1].DataOf(s);
      }
      if HasData(pkgs, s) && !pkgs[0].DataOf(s) {
        var i :| 0 <= i < |pkgs| && pkgs[i].DataOf(s);
        assert pkgs[1..][i - 1].DataOf(s);
      }
    }
  }

  lemma {:induction false} ScanDataSessions(todo: seq<Pkg>, busy: set<U32>, expired: seq<bool>)
    requires |expired| == |todo|
    ensures DataSessions(Scan(todo, busy, expired).pkgs) == DataSessions(todo)
    decreases |todo|
  {
    if todo != [] {
      var p, rest := todo[0], todo[1..];
      var w := Scan(todo, busy, expired);
      if p.status == WaitResponse && expired[0] {
        assert w.pkgs[1..] == rest;
      } else {
        var busy1 := if p.status == WaitSend && (p.response || p.sessionId in busy) then busy else busy + {p.sessionId};
        ScanDataSessions(rest, busy1, expired[1..]);
        var r := Scan(rest, busy1, expired[1..]).pkgs;
        assert w.pkgs == r || w.pkgs[1..] == r;
      }
    }
  }

  lemma {:induction false} WithoutDataSessions(pkgs: seq<Pkg>, sid: U32)
    requires NoRepeats(DataSessions(pkgs))
    ensures NoRepeats(DataSessions(Without(pkgs, sid)))
    ensures forall s :: s in DataSessions(Without(pkgs, sid)) <==> s in DataSessions(pkgs) && s != sid
  {
    if pkgs != [] {
      var p, rest := pkgs[0], pkgs[1..];
      assert DataSessions(rest) == DataSessions(pkgs)[if p.response then 0 else 1..];
      WithoutDataSessions(rest, sid);
      if p.sessionId != sid {
        assert Without(pkgs, sid)[1..] == Without(rest, sid);
        if !p.response {
          assert DataSessions(pkgs) == [p.sessionId] + DataSessions(rest);
          assert p.sessionId !in DataSessions(rest) by {
            MiddleOut([], p.sessionId, DataSessions(rest));
            assert [] + ([p.sessionId] + DataSessions(rest)) == DataSessions(pkgs);
            assert [] + DataSessions(rest) == DataSessions(rest);
          }
        }
      }
    }
  }

  lemma ClearSlots(l: Link, sid: U32)
    requires SlotsMatch(l)
    ensures SlotsMatch(Clear(l, sid))
  {
    WithoutDataSessions(l.pkgs, sid);
    DataSessionsMean(l.pkgs, sid);
  }

  lemma StepSlots(l: Link, e: Event)
    requires Good(l.pkgs) && SlotsMatch(l) && Enabled(l, e) && Disciplined([e])
    ensures SlotsMatch(Step(l, e))
  {
    match e
    case EnqueueEvent(f, queue) =>
      assert [e][0].queue == [e][0].frame.IsData();
      EnqueueSlots(l, f);
    case ResponseEvent(h) => ResponseSlots(l, h);
    case ClearEvent(sid) => ClearSlots(l, sid);
    case PassEvent(expired) =>
      var w := Scan(l.pkgs, {}, expired);
      ScanDataSessions(l.pkgs, {}, expired);
      if w.gaveUp.Some? {
        ClearSlots(Link(w.pkgs, l.slots), w.gaveUp.value);
      }
  }

  lemma EnqueueSlots(l: Link, f: Frame)
    requires Good(l.pkgs) && SlotsMatch(l) && f.Sized()
    requires SlotFree(l, f.head.sessionId, f.IsData())
    ensures SlotsMatch(Request(l, f, f.IsData()))
  {
    hide ToPkgIdentityString;
    var sid := f.head.sessionId;
    var found := Find(l.pkgs, KeyOf(f.head));
    if found.None? {
      DataSessionsConcat(l.pkgs, [NewPkg(f)]);
      assert [NewPkg(f)][1..] == [];
    } else if f.IsData() {
      // a package of this key would be a data package of a session that holds no slot
      var p := l.pkgs[found.value];
      assert Labelled(p);
      KeyInjective(p.response, p.sessionId, p.frame.head.packageIndex, false, sid, f.head.packageIndex);
      assert p.DataOf(sid);
      DataSessionsMean(l.pkgs, sid);
    }
  }

  lemma DataSessionsSplit(a: seq<Pkg>, p: Pkg, b: seq<Pkg>)
    requires !p.response
    ensures DataSessions(a + [p] + b) == DataSessions(a) + ([p.sessionId] + DataSessions(b))
    ensures DataSessions(a + b) == DataSessions(a) + DataSessions(b)
  {
    assert a + [p] + b == a + ([p] + b);
    DataSessionsConcat(a, [p] + b);
    DataSessionsConcat(a, b);
    assert ([p] + b)[1..] == b;
  }

  lemma DropSlots(a: seq<Pkg>, p: Pkg, b: seq<Pkg>, slots: set<U32>)
    requires !p.response && SlotsMatch(Link(a + [p] + b, slots))
    ensures SlotsMatch(Link(a + b, slots - {p.sessionId}))
  {
    hide DataSessions;
    DataSessionsSplit(a, p, b);
    MiddleOut(DataSessions(a), p.sessionId, DataSessions(b));
  }

  lemma ResponseSlots(l: Link, h: Head)
    requires Good(l.pkgs) && SlotsMatch(l)
    ensures SlotsMatch(Response(l, h))
  {
    hide ToPkgIdentityString, DataSessions;
    match Find(l.pkgs, ToPkgIdentityString(false, h.sessionId, h.packageIndex))
    case None =>
    case Some(i) =>
      var a, p, b := l.pkgs[..i], l.pkgs[i], l.pkgs[i + 1..];
      assert !p.response by {
        assert Labelled(p);
        KeyInjective(p.response, p.sessionId, p.frame.head.packageIndex, false, h.sessionId, h.packageIndex);
      }
      assert l.pkgs == a + [p] + b;
      if h.HasOption(PKG_OPTION_ACK) {
        DropSlots(a, p, b, l.slots);
      } else {
        assert l.pkgs[i := Renew(p)] == a + [Renew(p)] + b;
        DataSessionsSplit(a, p, b);
        DataSessionsSplit(a, Renew(p), b);
      }
  }

  lemma MiddleOut(a: seq<U32>, x: U32, b: seq<U32>)
    requires NoRepeats(a + ([x] + b))
    ensures NoRepeats(a + b)
    ensures forall s :: s in a + b <==> s in a + ([x] + b) && s != x
  {
    var t := a + ([x] + b);
    assert t[|a|] == x;
    assert forall i | 0 <= i < |a| :: t[i] == a[i];
    assert forall i | 0 <= i < |b| :: t[|a| + 1 + i] == b[i];
    assert x !in a && x !in b;
    forall i, j | 0 <= i < j < |a + b|
      ensures (a + b)[i] != (a + b)[j]
    {
      assert (a + b)[i] == t[if i < |a| then i else i + 1];
      assert (a + b)[j] == t[if j < |a| then j else j + 1];
    }
  }

  lemma {:induction false} RunSlots(l: Link, es: seq<Event>)
    requires Good(l.pkgs) && SlotsMatch(l) && Feasible(l, es) && Disciplined(es)
    ensures SlotsMatch(Run(l, es))
    decreases |es|
  {
    if es != [] {
      assert [es[0]][0] == es[0];
      StepKeeps(l, es[0]);
      StepSlots(l, es[0]);
      RunSlots(Step(l, es[0]), es[1..]);
    }
  }

  // Over every run in which data packages and only they wait for a slot, a session holds its slot
  // exactly while it has a data package queued, and then it has one.
  lemma SlotsAreSessionsWithData(es: seq<Event>, sid: U32)
    requires Feasible(EMPTY_LINK, es) && Disciplined(es)
    ensures var l := Run(EMPTY_LINK, es);
            && (sid in l.slots <==> HasData(l.pkgs, sid))
            && forall i, j | 0 <= i < j < |l.pkgs| :: !(l.pkgs[i].DataOf(sid) && l.pkgs[j].DataOf(sid))
  {
    RunSlots(EMPTY_LINK, es);
    var l := Run(EMPTY_LINK, es);
    DataSessionsMean(l.pkgs, sid);
    forall i, j | 0 <= i < j < |l.pkgs|
      ensures !(l.pkgs[i].DataOf(sid) && l.pkgs[j].DataOf(sid))
    {
      if l.pkgs[i].DataOf(sid) && l.pkgs[j].DataOf(sid) {
        TwoOfOneSession(l.pkgs, i, j, sid);
      }
    }
  }

  lemma TwoOfOneSession(pkgs: seq<Pkg>, i: nat, j: nat, sid: U32)
    requires i < j < |pkgs| && pkgs[i].DataOf(sid) && pkgs[j].DataOf(sid)
    ensures !NoRepeats(DataSessions(pkgs))
  {
    assert pkgs == pkgs[..j] + pkgs[j..];
    DataSessionsConcat(pkgs[..j], pkgs[j..]);
    var a, b := DataSessions(pkgs[..j]), DataSessions(pkgs[j..]);
    assert pkgs[..j][i].DataOf(sid);
    assert HasData(pkgs[..j], sid);
    DataSessionsMean(pkgs[..j], sid);
    var k :| 0 <= k < |a| && a[k] == sid;
    assert b[0] == sid;
    assert (a + b)[k] == sid && (a + b)[|a|] == sid;
  }
}

/** The state of one direction of the link, and what each step does to it. */
module ArqFlow {
  import opened Bytes
  import opened UartHead
  import opened UartQueue

  // ---- data packages and acknowledgements apart ------------------------------------

  function DataOf(fs: seq<Frame>): seq<Frame> {
    if fs == [] then [] else (if fs[0].IsData() then [fs[0]] else []) + DataOf(fs[1..])
  }

  function AcksOf(fs: seq<Frame>): seq<U32> {
    if fs == [] then [] else (if fs[0].IsData() then [] else [fs[0].head.packageIndex]) + AcksOf(fs[1..])
  }

  function FramesOf(pkgs: seq<Pkg>): (fs: seq<Frame>)
    ensures |fs| == |pkgs| && forall i | 0 <= i < |pkgs| :: fs[i] == pkgs[i].frame
  {
    seq(|pkgs|, i requires 0 <= i < |pkgs| => pkgs[i].frame)
  }

  lemma {:induction false} DataConcat(x: seq<Frame>, y: seq<Frame>)
    ensures DataOf(x + y) == DataOf(x) + DataOf(y)
  {
    hide Frame.IsData;
    if x == [] {
      assert x + y == y;
    } else {
      assert (x + y)[1..] == x[1..] + y;
      DataConcat(x[1..], y);
      Assoc(if x[0].IsData() then [x[0]] else [], DataOf(x[1..]), DataOf(y));
    }
  }

  lemma {:induction false} AcksConcat(x: seq<Frame>, y: seq<Frame>)
    ensures AcksOf(x + y) == AcksOf(x) + AcksOf(y)
  {
    hide Frame.IsData;
    if x == [] {
      assert x + y == y;
    } else {
      assert (x + y)[1..] == x[1..] + y;
      AcksConcat(x[1..], y);
      Assoc(if x[0].IsData() then [] else [x[0].head.packageIndex], AcksOf(x[1..]), AcksOf(y));
    }
  }

  lemma DataSplit(x: seq<Frame>, f: Frame, y: seq<Frame>)
    ensures DataOf(x + [f] + y) == DataOf(x) + (if f.IsData() then [f] else []) + DataOf(y)
  {
    DataConcat(x, [f]);
    DataConcat(x + [f], y);
    assert [f][1..] == [];
  }

  lemma AcksSplit(x: seq<Frame>, f: Frame, y: seq<Frame>)
    ensures AcksOf(x + [f] + y) == AcksOf(x) + (if f.IsData() then [] else [f.head.packageIndex]) + AcksOf(y)
  {
    AcksConcat(x, [f]);
    AcksConcat(x + [f], y);
    assert [f][1..] == [];
  }

  lemma {:induction false} DataAreMembers(fs: seq<Frame>, f: Frame)
    ensures f in DataOf(fs) <==> f in fs && f.IsData()
  {
    if fs != [] {
      DataAreMembers(fs[1..], f);
      assert f in fs <==> f == fs[0] || f in fs[1..];
    }
  }

  // ---- one direction ---------------------------------------------------------------

  // `req` is what the sender handed to the link, `queued` its data packages still queued, `onWire`
  // the data packages under way, `got` and `last` what the receiver dispatched, and `acks` the
  // indices acknowledged, from the one to arrive next to the one queued last.
  datatype Flow = Flow(
    req: seq<seq<Byte>>,
    queued: seq<Frame>,
    cleared: bool,
    onWire: seq<Frame>,
    got: seq<seq<Byte>>,
    last: U32,
    acks: seq<U32>)
  {
    // Package number k, counted from 1.
    predicate Carries(f: Frame, k: nat)
      requires 1 <= k <= |req|
    {
      f.IsData() && f.head.packageIndex == k % TWO32 && f.payload == req[k - 1]
    }

    predicate Current(f: Frame) {
      |req| >= 1 && Carries(f, |req|)
    }

    predicate Previous(f: Frame) {
      |req| >= 2 && Carries(f, |req| - 1)
    }

    function Now(): U32 {
      |req| % TWO32
    }

    predicate AckNow(x: U32) {
      |req| >= 1 && x == Now()
    }

    predicate AckBefore(x: U32) {
      |req| >= 2 && x == (|req| - 1) % TWO32
    }

    predicate Payloads() {
      && (forall i | 0 <= i < |req| :: req[i] != [])
      && |got| <= |req| <= |got| + 1
      && got == req[..|got|]
      && last == |got| % TWO32
    }

    predicate Queue() {
      |queued| <= 1 && forall i | 0 <= i < |queued| :: Current(queued[i])
    }

    // Only the last two packages are on the wire, the older first; once the receiver has taken the
    // newer one the older is gone.
    predicate OnWire() {
      && (forall i | 0 <= i < |onWire| :: Current(onWire[i]) || Previous(onWire[i]))
      && (forall i, j | 0 <= i < j < |onWire| :: Current(onWire[i]) ==> Current(onWire[j]))
      && (|got| == |req| ==> forall i | 0 <= i < |onWire| :: Current(onWire[i]))
    }

    predicate Acks() {
      && (forall i | 0 <= i < |acks| :: AckNow(acks[i]) || AckBefore(acks[i]))
      && (forall i, j | 0 <= i < j < |acks| :: AckNow(acks[i]) ==> AckNow(acks[j]))
      && (forall i | 0 <= i < |acks| :: AckNow(acks[i]) ==> |got| == |req|)
    }

    // A data package that left the queue by its ACK had been accepted.
    predicate Settled() {
      queued == [] && !cleared ==> |got| == |req| && forall i | 0 <= i < |acks| :: AckNow(acks[i])
    }

    // Once the session was given up, acknowledgements of any age may be under way.
    predicate Ok() {
      Payloads() && Queue() && OnWire() && (cleared || (Acks() && Settled()))
    }
  }

  lemma OnlyCurrentQueued(w: Flow)
    requires w.Ok()
    ensures |w.queued| <= 1
    ensures w.queued != [] ==> w.queued[0].head.packageIndex == w.Now()
  {
    assert w.queued != [] ==> w.Current(w.queued[0]);
  }

  lemma Successive(k: nat)
    ensures k % TWO32 != (k + 1) % TWO32
  {
  }

  lemma CurrentXorPrevious(w: Flow, f: Frame)
    ensures !(w.Current(f) && w.Previous(f))
  {
    if |w.req| >= 2 {
      Successive(|w.req| - 1);
    }
  }

  lemma NowXorBefore(w: Flow, x: U32)
    ensures !(w.AckNow(x) && w.AckBefore(x))
  {
    if |w.req| >= 2 {
      Successive(|w.req| - 1);
    }
  }

  // ---- what can happen to a direction ------------------------------------------------

  lemma RequestFlow(w: Flow, payload: seq<Byte>, f: Frame)
    requires w.Ok() && w.queued == [] && payload != [] && (w.cleared ==> |w.got| == |w.req|)
    requires f.IsData() && f.head.packageIndex == (|w.req| + 1) % TWO32 && f.payload == payload
    ensures w.(req := w.req + [payload], queued := [f]).Ok()
  {
    var v := w.(req := w.req + [payload], queued := [f]);
    Successive(|w.req|);
    assert forall g: Frame :: w.Current(g) ==> v.Previous(g) && !v.Current(g);
    assert forall x: U32 :: w.AckNow(x) ==> v.AckBefore(x) && !v.AckNow(x);
  }

  lemma SendFlow(w: Flow, fs: seq<Frame>)
    requires w.Ok() && forall i | 0 <= i < |fs| :: fs[i] in w.queued
    ensures w.(onWire := w.onWire + fs).Ok()
  {
    assert forall i | 0 <= i < |fs| :: w.Current(fs[i]);
    var v := w.(onWire := w.onWire + fs);
    assert forall f: Frame :: v.Current(f) == w.Current(f) && v.Previous(f) == w.Previous(f);
  }

  lemma LoseDataFlow(w: Flow, onWire: seq<Frame>, i: nat)
    requires w.Ok() && i < |w.onWire| && onWire == w.onWire[..i] + w.onWire[i + 1..]
    ensures w.(onWire := onWire).Ok()
  {
    var v := w.(onWire := onWire);
    assert forall f: Frame :: v.Current(f) == w.Current(f) && v.Previous(f) == w.Previous(f);
    assert forall k | 0 <= k < |onWire| :: onWire[k] == w.onWire[if k < i then k else k + 1];
  }

  lemma LoseAckFlow(w: Flow, acks: seq<U32>, i: nat)
    requires w.Ok() && i < |w.acks| && acks == w.acks[..i] + w.acks[i + 1..]
    ensures w.(acks := acks).Ok()
  {
    var v := w.(acks := acks);
    assert forall x: U32 :: v.AckNow(x) == w.AckNow(x) && v.AckBefore(x) == w.AckBefore(x);
    assert forall k | 0 <= k < |acks| :: acks[k] == w.acks[if k < i then k else k + 1];
  }

  lemma DropAcksFlow(w: Flow, acks: seq<U32>)
    requires w.Ok() && acks <= w.acks
    ensures w.(acks := acks).Ok()
  {
    var v := w.(acks := acks);
    assert forall x: U32 :: v.AckNow(x) == w.AckNow(x) && v.AckBefore(x) == w.AckBefore(x);
  }

  lemma ClearFlow(w: Flow)
    requires w.Ok()
    ensures w.(queued := [], cleared := true).Ok()
  {
    var v := w.(queued := [], cleared := true);
    assert forall f: Frame :: v.Current(f) == w.Current(f) && v.Previous(f) == w.Previous(f);
    assert forall x: U32 :: v.AckNow(x) == w.AckNow(x) && v.AckBefore(x) == w.AckBefore(x);
  }

  // The receiver takes the first data package on the wire and queues its acknowledgement, unless
  // the same one is queued already.
  function Taken(w: Flow, acked: bool): Flow
    requires w.onWire != []
  {
    var f := w.onWire[0];
    var isNew := w.last != f.head.packageIndex;
    w.(onWire := w.onWire[1..],
       got := if isNew then w.got + [f.payload] else w.got,
       last := f.head.packageIndex,
       acks := if acked then w.acks + [f.head.packageIndex] else w.acks)
  }

  lemma TakeFlow(w: Flow, acked: bool)
    requires w.Ok() && w.onWire != []
    ensures Taken(w, acked).Ok()
    ensures w.last == w.onWire[0].head.packageIndex ==> Taken(w, acked).last == w.last
  {
    var f, v := w.onWire[0], Taken(w, acked);
    assert forall g: Frame :: v.Current(g) == w.Current(g) && v.Previous(g) == w.Previous(g);
    assert forall x: U32 :: v.AckNow(x) == w.AckNow(x) && v.AckBefore(x) == w.AckBefore(x);
    CurrentXorPrevious(w, f);
    if |w.req| >= 1 {
      Successive(|w.req| - 1);
    }
    if w.Current(f) {
      assert forall j | 0 <= j < |w.onWire| :: w.Current(w.onWire[j]);
      assert w.AckNow(f.head.packageIndex);
    } else {
      NowXorBefore(w, f.head.packageIndex);
    }
  }

  // The first acknowledgement arrives and the package it names, if queued, leaves the queue.
  lemma AckFlow(w: Flow)
    requires w.Ok() && w.acks != []
    ensures w.(acks := w.acks[1..]).Ok()
    ensures w.acks[0] == w.Now() ==> w.(acks := w.acks[1..], queued := []).Ok()
  {
    LoseAckFlow(w, w.acks[1..], 0);
    if w.acks[0] == w.Now() {
      if !w.cleared {
        NowXorBefore(w, w.acks[0]);
        assert w.AckNow(w.acks[0]);
        assert forall j | 0 <= j < |w.acks| :: w.AckNow(w.acks[j]);
      }
      QueueEmptied(w.(acks := w.acks[1..]));
    }
  }

  // A queue is emptied by ACKs only when the receiver has everything and all that is acknowledged is
  // the last package.
  lemma QueueEmptied(w: Flow)
    requires w.Ok() && (w.cleared || (|w.got| == |w.req| && forall i | 0 <= i < |w.acks| :: w.AckNow(w.acks[i])))
    ensures w.(queued := []).Ok()
  {
    var v := w.(queued := []);
    assert forall x: U32 :: v.AckNow(x) == w.AckNow(x) && v.AckBefore(x) == w.AckBefore(x);
    assert forall g: Frame :: v.Current(g) == w.Current(g) && v.Previous(g) == w.Previous(g);
  }
}

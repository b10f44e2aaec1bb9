/** Every run of a transfer copies every file and ends. */
module FileSafety {
  import opened Bytes
  import opened SerialStructs
  import opened FileTask
  import opened FileTransfer

  // ---- pieces of a file ------------------------------------------------------------------

  predicate Hits(w: Write, x: nat) {
    w.index <= x < w.index + |w.data|
  }

  predicate Covers(ws: seq<Write>, x: nat) {
    ws != [] && (Hits(ws[0], x) || Covers(ws[1..], x))
  }

  function Total(ws: seq<Write>): nat {
    if ws == [] then 0 else |ws[0].data| + Total(ws[1..])
  }

  // Data that belongs to the first `upTo` bytes of the file, in its place; empty only for an empty file.
  predicate IsPiece(file: seq<Byte>, upTo: nat, w: Write)
    requires upTo <= |file|
  {
    && w.index + |w.data| <= upTo && w.data == file[w.index..w.index + |w.data|]
    && (file != [] ==> w.data != [])
  }

  predicate ArePieces(file: seq<Byte>, upTo: nat, ws: seq<Write>)
    requires upTo <= |file|
  {
    forall i | 0 <= i < |ws| :: IsPiece(file, upTo, ws[i])
  }

  lemma PiecesStay(file: seq<Byte>, sent: nat, next: nat, ws: seq<Write>)
    requires sent <= next <= |file| && ArePieces(file, sent, ws)
    ensures ArePieces(file, next, ws)
  {
    forall i | 0 <= i < |ws| ensures IsPiece(file, next, ws[i]) {
      assert IsPiece(file, sent, ws[i]);
    }
  }

  // Of the first `sent` bytes each is in the target file, in a write under way (`ws`) or in a piece not
  // yet received (`ps`); `got` counts the bytes written.
  predicate Placed(file: seq<Byte>, there: seq<Byte>, sent: nat, ps: seq<Write>, ws: seq<Write>, got: nat) {
    && sent <= |file| && |there| <= sent
    && ArePieces(file, sent, ps) && ArePieces(file, sent, ws)
    && Total(ps) + Total(ws) + got == sent
    && forall x | 0 <= x < sent :: (x < |there| && there[x] == file[x]) || Covers(ps, x) || Covers(ws, x)
  }

  lemma {:induction false} CoversSplit(a: seq<Write>, w: Write, b: seq<Write>, x: nat)
    ensures Covers(a + [w] + b, x) == (Covers(a, x) || Hits(w, x) || Covers(b, x))
    ensures Covers(a + b, x) == (Covers(a, x) || Covers(b, x))
    decreases |a|
  {
    if a == [] {
      assert a + [w] + b == [w] + b && a + b == b;
      assert ([w] + b)[1..] == b;
    } else {
      assert (a + [w] + b)[1..] == a[1..] + [w] + b && (a + b)[1..] == a[1..] + b;
      CoversSplit(a[1..], w, b, x);
    }
  }

  lemma {:induction false} TotalSplit(a: seq<Write>, w: Write, b: seq<Write>)
    ensures Total(a + [w] + b) == Total(a) + |w.data| + Total(b)
    ensures Total(a + b) == Total(a) + Total(b)
    decreases |a|
  {
    if a == [] {
      assert a + [w] + b == [w] + b && a + b == b;
      assert ([w] + b)[1..] == b;
    } else {
      assert (a + [w] + b)[1..] == a[1..] + [w] + b && (a + b)[1..] == a[1..] + b;
      TotalSplit(a[1..], w, b);
    }
  }

  lemma {:induction false} NothingLeft(ws: seq<Write>)
    requires Total(ws) == 0 && forall i | 0 <= i < |ws| :: ws[i].data != []
    ensures ws == []
  {
  }

  // What a positioned write leaves behind.
  lemma WrittenAt(file: seq<Byte>, index: nat, data: seq<Byte>)
    ensures var f := WriteAt(file, index, data);
            && |f| == (if data != [] && index + |data| > |file| then index + |data| else |file|)
            && (forall x | index <= x < index + |data| :: f[x] == data[x - index])
            && (forall x | 0 <= x < |file| && !(index <= x < index + |data|) :: f[x] == file[x])
  {
  }

  // One more piece is read and sent.
  lemma PieceSent(file: seq<Byte>, there: seq<Byte>, sent: nat, ps: seq<Write>, ws: seq<Write>, got: nat, w: Write)
    requires Placed(file, there, sent, ps, ws, got)
    requires w.index == sent && sent + |w.data| <= |file| && w.data == file[sent..sent + |w.data|]
    requires file != [] ==> w.data != []
    requires IsPiece(file, sent + |w.data|, w)
    ensures Placed(file, there, sent + |w.data|, ps + [w], ws, got)
  {
    hide IsPiece, ArePieces;
    var next := sent + |w.data|;
    PiecesStay(file, sent, next, ps);
    PiecesStay(file, sent, next, ws);
    PieceAdded(file, next, ps, w);
    TotalSplit(ps, w, []);
    assert ps + [w] + [] == ps + [w];
    forall x | 0 <= x < next
      ensures (x < |there| && there[x] == file[x]) || Covers(ps + [w], x) || Covers(ws, x)
    {
      CoversSplit(ps, w, [], x);
      assert x >= sent ==> Hits(w, x);
    }
  }

  lemma PieceAdded(file: seq<Byte>, sent: nat, ws: seq<Write>, w: Write)
    requires sent <= |file| && ArePieces(file, sent, ws) && IsPiece(file, sent, w)
    ensures ArePieces(file, sent, ws + [w])
  {
    hide IsPiece;
  }

  // The first piece under way is received and its write begun.
  lemma PieceReceived(file: seq<Byte>, there: seq<Byte>, sent: nat, ps: seq<Write>, ws: seq<Write>, got: nat)
    requires Placed(file, there, sent, ps, ws, got) && ps != []
    ensures Placed(file, there, sent, ps[1..], ws + [ps[0]], got)
  {
    hide IsPiece;
    PieceAdded(file, sent, ws, ps[0]);
    TotalSplit(ws, ps[0], []);
    assert ws + [ps[0]] + [] == ws + [ps[0]];
    forall x | 0 <= x < sent
      ensures (x < |there| && there[x] == file[x]) || Covers(ps[1..], x) || Covers(ws + [ps[0]], x)
    {
      CoversSplit(ws, ps[0], [], x);
    }
    assert forall i | 0 <= i < |ps[1..]| :: ps[1..][i] == ps[i + 1];
  }

  // A write completes, whichever it is.
  lemma PieceWritten(file: seq<Byte>, there: seq<Byte>, sent: nat, ps: seq<Write>, ws: seq<Write>, got: nat, i: nat)
    requires Placed(file, there, sent, ps, ws, got) && i < |ws|
    ensures Placed(file, WriteAt(there, ws[i].index, ws[i].data), sent, ps, Without(ws, i), got + |ws[i].data|)
  {
    hide WriteAt, Covers, Total, IsPiece, Hits;
    var a, w, b := ws[..i], ws[i], ws[i + 1..];
    var now := WriteAt(there, w.index, w.data);
    assert ws == a + [w] + b && Without(ws, i) == a + b;
    TotalSplit(a, w, b);
    PieceRemoved(file, sent, ws, i);
    StaysWithin(file, there, sent, w);
    forall x | 0 <= x < sent
      ensures (x < |now| && now[x] == file[x]) || Covers(ps, x) || Covers(a + b, x)
    {
      CoversSplit(a, w, b, x);
      ByteKept(file, there, sent, w, x);
    }
  }

  lemma StaysWithin(file: seq<Byte>, there: seq<Byte>, sent: nat, w: Write)
    requires sent <= |file| && |there| <= sent && IsPiece(file, sent, w)
    ensures |WriteAt(there, w.index, w.data)| <= sent
  {
    hide WriteAt;
    WrittenAt(there, w.index, w.data);
  }

  // A byte that is right stays right, and the bytes of the piece become so.
  lemma ByteKept(file: seq<Byte>, there: seq<Byte>, sent: nat, w: Write, x: nat)
    requires sent <= |file| && x < sent && IsPiece(file, sent, w)
    ensures var now := WriteAt(there, w.index, w.data);
            (x < |there| && there[x] == file[x]) || Hits(w, x) ==> x < |now| && now[x] == file[x]
  {
    hide WriteAt;
    WrittenAt(there, w.index, w.data);
  }

  lemma PieceRemoved(file: seq<Byte>, sent: nat, ws: seq<Write>, i: nat)
    requires sent <= |file| && ArePieces(file, sent, ws) && i < |ws|
    ensures ArePieces(file, sent, Without(ws, i))
  {
    hide IsPiece;
    assert forall k | 0 <= k < |Without(ws, i)| :: Without(ws, i)[k] == ws[if k < i then k else k + 1];
  }

  // Once every byte was written the target is the file.
  lemma AllWritten(file: seq<Byte>, there: seq<Byte>, sent: nat, ps: seq<Write>, ws: seq<Write>, got: nat)
    requires Placed(file, there, sent, ps, ws, got) && got >= |file|
    ensures sent == |file| && got == |file| && Total(ps) == 0 && Total(ws) == 0
    ensures file != [] ==> ps == [] && ws == []
    ensures there == file
  {
    NoneCovers(ps, |there|);
    NoneCovers(ws, |there|);
    forall x | 0 <= x < |there| ensures there[x] == file[x] {
      NoneCovers(ps, x);
      NoneCovers(ws, x);
    }
    assert forall i | 0 <= i < |ps| :: IsPiece(file, sent, ps[i]);
    assert forall i | 0 <= i < |ws| :: IsPiece(file, sent, ws[i]);
    if file != [] {
      NothingLeft(ps);
      NothingLeft(ws);
    }
  }

  lemma {:induction false} NoneCovers(ws: seq<Write>, x: nat)
    requires Total(ws) == 0
    ensures !Covers(ws, x)
    decreases |ws|
  {
    if ws != [] {
      NoneCovers(ws[1..], x);
    }
  }

  // ---- the state of a transfer, phase by phase ------------------------------------------------

  // Moving: the pieces sent and not yet received.
  datatype Phase =
    | MOpening | Checking | SOpening | Beginning | Moving(ps: seq<Write>) | Closing | Finishing | Ending | Over

  predicate Idle(p: Requests) {
    p.opens == 0 && p.reading == [] && p.writing == [] && p.closes == 0
  }

  function SizeSum(source: Disk, names: seq<Name>): nat
    requires forall i | 0 <= i < |names| :: names[i] in source
  {
    if names == [] then 0 else |source[names[0]]| + SizeSum(source, names[1..])
  }

  predicate Transferable(source: Disk, names: seq<Name>) {
    && 0 < |names| < TWO32
    && (forall i | 0 <= i < |names| :: names[i] in source && |source[names[i]]| <= INT_MAX)
    && (forall i, j | 0 <= i < j < |names| :: names[i] != names[j])
  }

  function Now(c: Sys): seq<Byte>
    requires c.m.localName in c.source
  {
    c.source[c.m.localName]
  }

  // The files after the current one are done.
  predicate Copied(source: Disk, target: Disk, names: seq<Name>, k: nat)
    requires Transferable(source, names)
  {
    forall j | k <= j < |names| :: names[j] in target && target[names[j]] == source[names[j]]
  }

  // `done` files are finished, counted from the back of the list.
  predicate Counts(c: Sys, names: seq<Name>, k: nat)
    requires Transferable(c.source, names) && k <= |names|
  {
    c.s.fileCnt == |names| - k && c.s.dirSize == SizeSum(c.source, names[k..])
  }

  predicate Basics(c: Sys, names: seq<Name>)
  {
    var k := |c.m.taskQueue|;
    && Transferable(c.source, names)
    && k < |names| && c.m.taskQueue == names[..k] && c.m.localName == names[k]
    && c.m.isDir == (|names| > 1)
    && c.m.master && !c.s.master && !c.m.closeNotify
    && c.m.pending.writing == [] && c.s.pending.reading == []
    && c.m.refCount == c.m.pending.Count() && c.s.refCount == c.s.pending.Count()
    && Copied(c.source, c.target, names, k + 1)
  }

  predicate NoRequests(t: Task) {
    t.pending.opens == 0 && t.pending.reading == [] && t.pending.writing == []
  }

  // The slave has the size and the name of the current file.
  predicate SlaveKnows(c: Sys)
    requires c.m.localName in c.source
  {
    c.s.fileSize == |Now(c)| && c.s.localName == c.m.localName
  }

  predicate MasterReady(c: Sys)
    requires c.m.localName in c.source
  {
    c.m.fileSize == |Now(c)| && c.m.indexIO == 0 && !c.m.ioFinish
  }

  predicate SlaveReady(c: Sys) {
    c.s.indexIO == 0 && !c.s.ioFinish && !c.s.closeNotify && c.s.localName in c.target && c.target[c.s.localName] == []
  }

  predicate InTransit(c: Sys, ps: seq<Write>) {
    |c.m.out| == |ps| &&
    forall i | 0 <= i < |ps| ::
      |ps[i].data| <= CHUNK && c.m.out[i] == Data(DataPayload(c.m.config.compressType, ps[i].index, ps[i].data))
  }

  predicate Reading(c: Sys, ps: seq<Write>)
    requires c.m.localName in c.source
  {
    var n, ws := |Now(c)|, c.s.pending.writing;
    if c.m.ioFinish then
      && c.m.pending.reading == [] && c.m.indexIO == n
      && (n == 0 ==> |ps| + |ws| == 1)
    else
      && c.m.pending.reading == [Read(c.m.indexIO, CHUNK)]
      && (if n == 0 then ps == [] && ws == [] else c.m.indexIO < n)
  }

  // Each side has closed every file it is done with, once.
  predicate ClosedOnce(c: Sys, names: seq<Name>, phase: Phase) {
    var done := |names| - 1 - |c.m.taskQueue|;
    match phase
    case MOpening => c.m.closings == done && c.s.closings == done
    case Checking => c.m.closings == done && c.s.closings == done
    case SOpening => c.m.closings == done && c.s.closings == done
    case Beginning => c.m.closings == done && c.s.closings == done
    case Moving(_) => c.m.closings == (if c.m.ioFinish then done + 1 else done) && c.s.closings == done
    case _ => c.m.closings == done + 1 && c.s.closings == done + 1
  }

  predicate IsMoving(c: Sys, ps: seq<Write>)
    requires c.m.localName in c.source
  {
    && c.m.pending.opens == 0 && c.s.pending.opens == 0 && c.s.pending.closes == 0 && c.s.out == []
    && c.m.fileSize == |Now(c)| && SlaveKnows(c) && c.s.localName in c.target && !c.s.ioFinish && !c.s.closeNotify
    && (Now(c) != [] ==> c.s.indexIO < |Now(c)|)
    && InTransit(c, ps) && Placed(Now(c), c.target[c.s.localName], c.m.indexIO, ps, c.s.pending.writing, c.s.indexIO) && Reading(c, ps)
    && !c.s.over
  }

  predicate At(c: Sys, names: seq<Name>, phase: Phase) {
    && Basics(c, names)
    && ClosedOnce(c, names, phase)
    && var k := |c.m.taskQueue|;
    match phase
    case MOpening =>
      c.m.pending.opens == 1 && c.m.pending.reading == [] && Idle(c.s.pending) && c.m.out == [] && c.s.out == [] &&
      Counts(c, names, k + 1) && !c.s.over
    case Checking =>
      && NoRequests(c.m) && Idle(c.s.pending) && c.s.out == [] && MasterReady(c) && !c.s.over
      && c.m.config.fileSize == |Now(c)| && c.m.config.optionalName == c.m.localName
      && c.m.out == [Check(EncodeConfig(c.m.config))] && Counts(c, names, k + 1)
    case SOpening =>
      && NoRequests(c.m) && c.s.pending.opens == 1 && c.s.pending.writing == [] && c.s.pending.closes == 0
      && c.m.out == [] && c.s.out == [] && MasterReady(c) && SlaveKnows(c) && Counts(c, names, k + 1) && !c.s.over
    case Beginning =>
      && NoRequests(c.m) && Idle(c.s.pending) && c.m.out == [] && c.s.out == [Begin]
      && MasterReady(c) && SlaveKnows(c) && SlaveReady(c) && Counts(c, names, k + 1) && !c.s.over
    case Moving(ps) => IsMoving(c, ps) && Counts(c, names, k + 1)
    case Closing =>
      && NoRequests(c.m) && NoRequests(c.s) && c.s.pending.closes == 1 && c.m.out == [] && c.s.out == []
      && c.s.ioFinish && c.s.closeNotify && c.s.indexIO == |Now(c)| && Copied(c.source, c.target, names, k) && Counts(c, names, k + 1) && !c.s.over
    case Finishing =>
      && NoRequests(c.m) && Idle(c.s.pending) && c.m.out == [] && c.s.out == [Finish(1)]
      && Copied(c.source, c.target, names, k) && Counts(c, names, k) && !c.s.over
    case Ending =>
      && k == 0 && NoRequests(c.m) && Idle(c.s.pending) && c.m.out == [Finish(0)] && c.s.out == []
      && Copied(c.source, c.target, names, 0) && Counts(c, names, 0) && !c.s.over
    case Over =>
      && k == 0 && NoRequests(c.m) && Idle(c.s.pending) && c.m.out == [] && c.s.out == []
      && Copied(c.source, c.target, names, 0) && Counts(c, names, 0) && c.s.over
  }

  // ---- how much is left to do -----------------------------------------------------------------

  function AtLeastOne(n: nat): nat {
    if n == 0 then 1 else n
  }

  function FileWork(file: seq<Byte>): nat {
    7 + 3 * AtLeastOne(|file|)
  }

  function Work(source: Disk, names: seq<Name>): nat
    requires forall i | 0 <= i < |names| :: names[i] in source
  {
    if names == [] then 0 else Work(source, names[..|names| - 1]) + FileWork(source[names[|names| - 1]])
  }

  function PhaseWork(c: Sys, phase: Phase): nat
    requires c.m.localName in c.source && (phase.Moving? ==> c.m.indexIO <= |Now(c)|)
  {
    var all := FileWork(Now(c));
    match phase
    case MOpening => all + 1
    case Checking => all
    case SOpening => all - 1
    case Beginning => all - 2
    case Moving(ps) =>
      var unread := if c.m.ioFinish then 0 else 1 + 3 * AtLeastOne(|Now(c)| - c.m.indexIO);
      unread + 2 * |ps| + |c.s.pending.writing| + 3
    case Closing => 3
    case Finishing => 2
    case Ending => 1
    case Over => 0
  }

  // Steps a run can still take at most.
  function Left(c: Sys, names: seq<Name>, phase: Phase): nat
    requires At(c, names, phase)
  {
    Work(c.source, names[..|c.m.taskQueue|]) + PhaseWork(c, phase) + c.m.pending.closes
  }

  // ---- the steps ---------------------------------------------------------------------------------

  // A step leads to a phase with less left to do.
  predicate Follows(c: Sys, names: seq<Name>, phase: Phase, d: Sys, next: Phase)
    requires At(c, names, phase)
  {
    At(d, names, next) && Left(d, names, next) < Left(c, names, phase) && d.source == c.source
  }

  lemma MasterOpens(c: Sys, names: seq<Name>, atime: U64, mtime: U64)
    requires At(c, names, MOpening)
    ensures Enabled(c, MasterOpened(atime, mtime))
    ensures Follows(c, names, MOpening, Step(c, MasterOpened(atime, mtime)), Checking)
  {
    hide EncodeConfig, SizeSum, Work;
  }

  lemma SlaveChecks(c: Sys, names: seq<Name>)
    requires At(c, names, Checking)
    ensures Enabled(c, SlaveReceives) && Follows(c, names, Checking, Step(c, SlaveReceives), SOpening)
  {
    hide EncodeConfig, ParseConfig, SizeSum, Work;
    CheckArrives(c.s.config, c.m.config);
  }

  lemma SlaveOpens(c: Sys, names: seq<Name>)
    requires At(c, names, SOpening)
    ensures Enabled(c, SlaveOpened) && Follows(c, names, SOpening, Step(c, SlaveOpened), Beginning)
  {
    hide EncodeConfig, SizeSum, Work;
  }

  lemma BeginReads(t: Task)
    requires t.master && !t.ioFinish
    ensures Dispatch(t, Begin) == Requested(t, t.pending.(reading := t.pending.reading + [Read(t.indexIO, CHUNK)]))
  {
  }

  lemma NothingPlaced(file: seq<Byte>)
    ensures Placed(file, [], 0, [], [], 0)
  {
  }

  lemma MasterBegins(c: Sys, names: seq<Name>)
    requires At(c, names, Beginning)
    ensures Enabled(c, MasterReceives) && Follows(c, names, Beginning, Step(c, MasterReceives), Moving([]))
  {
    hide SizeSum, Work, DataPayload, Dispatch, Placed, Copied;
    BeginReads(c.m);
    NothingPlaced(Now(c));
  }

  lemma SlaveFinishes(c: Sys, names: seq<Name>)
    requires At(c, names, Closing)
    ensures Enabled(c, SlaveClosed) && Follows(c, names, Closing, Step(c, SlaveClosed), Finishing)
  {
    hide Work, SizeSum;
    OneMoreCounted(c, names);
  }

  // Neither count wraps.
  lemma OneMoreCounted(c: Sys, names: seq<Name>)
    requires Basics(c, names) && Counts(c, names, |c.m.taskQueue| + 1)
    ensures var k := |c.m.taskQueue|;
            && (c.s.fileCnt + 1) % TWO32 == |names| - k
            && (c.s.dirSize + |Now(c)|) % TWO64 == SizeSum(c.source, names[k..])
  {
    hide Copied;
    var k := |c.m.taskQueue|;
    SumFrom(c.source, names, k);
    SumBound(c.source, names[k..]);
  }

  lemma SumFrom(source: Disk, names: seq<Name>, k: nat)
    requires k < |names| && forall i | 0 <= i < |names| :: names[i] in source
    ensures SizeSum(source, names[k..]) == |source[names[k]]| + SizeSum(source, names[k + 1..])
  {
    assert names[k..][1..] == names[k + 1..];
  }

  lemma {:induction false} SumBound(source: Disk, names: seq<Name>)
    requires forall i | 0 <= i < |names| :: names[i] in source && |source[names[i]]| <= INT_MAX
    ensures SizeSum(source, names) <= INT_MAX * |names|
  {
    if names != [] {
      SumBound(source, names[1..]);
    }
  }

  lemma MasterGoesOn(c: Sys, names: seq<Name>)
    requires At(c, names, Finishing)
    ensures Enabled(c, MasterReceives)
    ensures Follows(c, names, Finishing, Step(c, MasterReceives), if c.m.taskQueue != [] then MOpening else Ending)
  {
    hide SizeSum, Copied, Idle, Placed, IsMoving;
    var k := |c.m.taskQueue|;
    if k > 0 {
      assert names[..k][..k - 1] == names[..k - 1];
    }
  }

  lemma SlaveEnds(c: Sys, names: seq<Name>)
    requires At(c, names, Ending)
    ensures Enabled(c, SlaveReceives) && Follows(c, names, Ending, Step(c, SlaveReceives), Over)
  {
    hide SizeSum, Work;
  }

  lemma MasterCloses(c: Sys, names: seq<Name>, phase: Phase)
    requires At(c, names, phase) && Enabled(c, MasterClosed)
    ensures Follows(c, names, phase, Step(c, MasterClosed), phase)
  {
    hide SizeSum, Work, DataPayload, EncodeConfig, Covers, Total;
  }

  // What a read does to the master.
  function AfterRead(t: Task, data: seq<Byte>): Task
    requires |data| < TWO32
  {
    var at := (t.indexIO + |data|) % TWO64;
    var t1 := t.(indexIO := at, out := t.out + [Data(DataPayload(t.config.compressType, t.indexIO, data))]);
    if at < t.fileSize then t1.(pending := t.pending.(reading := [Read(at, CHUNK)]))
    else t1.(ioFinish := true, closings := t.closings + 1,
             pending := t.pending.(reading := [], closes := t.pending.closes + 1))
  }

  lemma OnReadIs(t: Task, data: seq<Byte>)
    requires t.master && !t.ioFinish && |data| < TWO32 && t.indexIO + |data| < TWO64
    ensures var at := t.indexIO + |data|;
            var t1 := t.(indexIO := at, out := t.out + [Data(DataPayload(t.config.compressType, t.indexIO, data))]);
            OnRead(t, data, true) ==
            if at < t.fileSize
            then t1.(refCount := t.refCount + 1, pending := t.pending.(reading := t.pending.reading + [Read(at, CHUNK)]))
            else t1.(ioFinish := true)
  {
    hide DataPayload;
    assert Advanced(t, |data|).indexIO == t.indexIO + |data|;
  }

  lemma EndIs(t: Task)
    ensures EndOfIO(t) ==
            if t.ioFinish then t.(closings := t.closings + 1, pending := t.pending.(closes := t.pending.closes + 1))
            else t.(refCount := t.refCount - 1)
  {
  }

  lemma ReadIs(t: Task, data: seq<Byte>)
    requires t.master && !t.ioFinish && |t.pending.reading| == 1 && |data| < TWO32 && t.indexIO + |data| < TWO64
    ensures ReadDone(t, 0, false, data, true) == AfterRead(t, data)
  {
    hide DataPayload, EndOfIO;
    assert Without(t.pending.reading, 0) == [];
    var t1 := t.(pending := t.pending.(reading := []));
    OnReadIs(t1, data);
    EndIs(OnRead(t1, data, true));
  }

  // A step that leaves the names alone.
  lemma BasicsStay(c: Sys, d: Sys, names: seq<Name>)
    requires Basics(c, names) && d.source == c.source
    requires d.m.taskQueue == c.m.taskQueue && d.m.localName == c.m.localName && d.m.isDir == c.m.isDir
    requires d.m.master && !d.s.master && !d.m.closeNotify && d.m.pending.writing == [] && d.s.pending.reading == []
    requires d.m.refCount == d.m.pending.Count() && d.s.refCount == d.s.pending.Count()
    requires Transferable(c.source, names) ==> Copied(c.source, d.target, names, |c.m.taskQueue| + 1)
    ensures Basics(d, names)
  {
    hide Transferable, Copied;
  }

  lemma BasicsMean(c: Sys, names: seq<Name>)
    requires Basics(c, names)
    ensures Transferable(c.source, names) && |c.m.taskQueue| < |names| && names[|c.m.taskQueue|] == c.m.localName
    ensures c.m.localName in c.source && |Now(c)| <= INT_MAX
    ensures c.m.master && !c.s.master && !c.m.closeNotify && c.m.pending.writing == [] && c.s.pending.reading == []
    ensures c.m.refCount == c.m.pending.Count() && c.s.refCount == c.s.pending.Count()
    ensures Copied(c.source, c.target, names, |c.m.taskQueue| + 1)
  {
  }

  lemma ReadKeepsMoving(c: Sys, d: Sys, ps: seq<Write>, n: nat)
    requires c.m.localName in c.source && |Now(c)| <= INT_MAX && IsMoving(c, ps) && Enabled(c, MasterRead(n))
    requires c.m.master && d == Step(c, MasterRead(n))
    ensures var w := Write(c.m.indexIO, Now(c)[c.m.indexIO..c.m.indexIO + n]); IsMoving(d, ps + [w])
    ensures d == c.(m := AfterRead(c.m, Now(c)[c.m.indexIO..c.m.indexIO + n]))
  {
    hide DataPayload, Placed, ReadDone, InTransit, Total, Covers;
    var w := Write(c.m.indexIO, Now(c)[c.m.indexIO..c.m.indexIO + n]);
    PieceSent(Now(c), c.target[c.s.localName], c.m.indexIO, ps, c.s.pending.writing, c.s.indexIO, w);
    ReadIs(c.m, w.data);
    OneMoreInTransit(c, d, ps, w);
  }

  lemma OneMoreInTransit(c: Sys, d: Sys, ps: seq<Write>, w: Write)
    requires InTransit(c, ps) && |w.data| <= CHUNK && d.m.config == c.m.config
    requires d.m.out == c.m.out + [Data(DataPayload(c.m.config.compressType, w.index, w.data))]
    ensures InTransit(d, ps + [w])
  {
    hide DataPayload;
  }

  lemma MasterReads(c: Sys, names: seq<Name>, ps: seq<Write>, n: nat)
    requires At(c, names, Moving(ps)) && Enabled(c, MasterRead(n))
    ensures var w := Write(c.m.indexIO, Now(c)[c.m.indexIO..c.m.indexIO + n]);
            Follows(c, names, Moving(ps), Step(c, MasterRead(n)), Moving(ps + [w]))
  {
    hide SizeSum, Work, DataPayload, ReadDone, Basics, IsMoving, At;
    MovingIs(c, names, ps);
    BasicsMean(c, names);
    MovingMeans(c, ps, n);
    var d, w := Step(c, MasterRead(n)), Write(c.m.indexIO, Now(c)[c.m.indexIO..c.m.indexIO + n]);
    ReadKeepsMoving(c, d, ps, n);
    BasicsStay(c, d, names);
    StillMoving(c, d, names, ps, ps + [w]);
  }

  lemma MovingIs(c: Sys, names: seq<Name>, ps: seq<Write>)
    requires At(c, names, Moving(ps))
    ensures Basics(c, names) && c.m.localName in c.source && IsMoving(c, ps)
    ensures c.m.closings == |names| - 1 - |c.m.taskQueue| + (if c.m.ioFinish then 1 else 0)
  {
    hide SizeSum, IsMoving;
  }

  // A step inside the moving phase, once it is known to leave the rest alone.
  lemma StillMoving(c: Sys, d: Sys, names: seq<Name>, ps: seq<Write>, qs: seq<Write>)
    requires At(c, names, Moving(ps)) && Basics(d, names) && d.m.localName in d.source && IsMoving(d, qs)
    requires d.source == c.source && d.m.taskQueue == c.m.taskQueue
    requires d.s.fileCnt == c.s.fileCnt && d.s.dirSize == c.s.dirSize && d.s.closings == c.s.closings
    requires d.m.closings - c.m.closings == (if d.m.ioFinish then 1 else 0) - (if c.m.ioFinish then 1 else 0)
    ensures At(d, names, Moving(qs))
  {
    hide SizeSum, IsMoving;
    BasicsMean(d, names);
  }

  lemma MovingMeans(c: Sys, ps: seq<Write>, n: nat)
    requires c.m.localName in c.source && IsMoving(c, ps) && Enabled(c, MasterRead(n))
    ensures c.m.pending.reading == [Read(c.m.indexIO, CHUNK)] && !c.m.ioFinish
    ensures c.m.indexIO + n <= |Now(c)| == c.m.fileSize && (n > 0 || Now(c) == [])
  {
    hide Placed, InTransit;
  }

  lemma SmallFile(c: Sys, names: seq<Name>)
    requires Basics(c, names)
    ensures c.m.localName in c.source && |Now(c)| <= INT_MAX
  {
  }

  lemma SlaveReceivesData(c: Sys, names: seq<Name>, ps: seq<Write>)
    requires At(c, names, Moving(ps)) && Enabled(c, SlaveReceives)
    ensures ps != [] && Follows(c, names, Moving(ps), Step(c, SlaveReceives), Moving(ps[1..]))
  {
    hide SizeSum, Work, DataPayload, Placed, Transferable, Copied, RecvIOPayload;
    SmallFile(c, names);
    PieceReceived(Now(c), c.target[c.s.localName], c.m.indexIO, ps, c.s.pending.writing, c.s.indexIO);
    PieceIsSmall(c, names, ps);
    DataArrives(c.s, c.m.config.compressType, ps[0].index, ps[0].data);
    var d := Step(c, SlaveReceives);
    assert d.s == WriteFile(c.s, ps[0].index, ps[0].data);
    assert forall i | 0 <= i < |ps[1..]| :: ps[1..][i] == ps[i + 1] && d.m.out[i] == c.m.out[i + 1];
  }

  lemma PieceIsSmall(c: Sys, names: seq<Name>, ps: seq<Write>)
    requires At(c, names, Moving(ps)) && ps != []
    ensures ps[0].index <= INT_MAX && |ps[0].data| < TWO32
  {
    hide SizeSum, DataPayload, Copied, Covers;
    SmallFile(c, names);
    assert IsPiece(Now(c), c.m.indexIO, ps[0]);
  }

  // What a write does to the slave.
  function AfterWrite(t: Task, i: nat): Task
    requires i < |t.pending.writing|
  {
    var at := (t.indexIO + |t.pending.writing[i].data|) % TWO64;
    var writing := Without(t.pending.writing, i);
    var t1 := t.(indexIO := at, pending := t.pending.(writing := writing));
    if at < t.fileSize then t1.(refCount := t.refCount - 1)
    else t1.(closeNotify := true, ioFinish := true, closings := t.closings + 1,
             pending := t1.pending.(closes := t.pending.closes + 1))
  }

  lemma WriteIs(t: Task, i: nat)
    requires i < |t.pending.writing| && !t.ioFinish
    ensures WriteDone(t, i, false) == AfterWrite(t, i)
  {
    hide EndOfIO;
    var t1 := t.(pending := t.pending.(writing := Without(t.pending.writing, i)));
    EndIs(OnWrite(t1, |t.pending.writing[i].data|));
  }

  // The write that completes the sum finishes the file, and it is the last.
  lemma SlaveWrites(c: Sys, names: seq<Name>, ps: seq<Write>, i: nat)
    requires At(c, names, Moving(ps)) && Enabled(c, SlaveWrote(i))
    ensures var got := c.s.indexIO + |c.s.pending.writing[i].data|;
            Follows(c, names, Moving(ps), Step(c, SlaveWrote(i)), if got < |Now(c)| then Moving(ps) else Closing)
  {
    hide SizeSum, Work, DataPayload, Placed, Transferable, Copied, WriteDone, WriteAt, Basics;
    BasicsMean(c, names);
    var w, there, d := c.s.pending.writing[i], c.target[c.s.localName], Step(c, SlaveWrote(i));
    PieceWritten(Now(c), there, c.m.indexIO, ps, c.s.pending.writing, c.s.indexIO, i);
    WriteIs(c.s, i);
    OnlyCurrent(c.source, c.target, names, |c.m.taskQueue|, d.target[c.s.localName]);
    BasicsStay(c, d, names);
    WithinFile(Now(c), d.target[c.s.localName], c.m.indexIO, ps, d.s.pending.writing, c.s.indexIO + |w.data|);
    if c.s.indexIO + |w.data| >= |Now(c)| {
      AllWritten(Now(c), d.target[c.s.localName], c.m.indexIO, ps, d.s.pending.writing, c.s.indexIO + |w.data|);
    }
  }

  // Writing to the current file leaves the finished ones alone.
  lemma OnlyCurrent(source: Disk, target: Disk, names: seq<Name>, k: nat, file: seq<Byte>)
    requires Transferable(source, names) && k < |names| && Copied(source, target, names, k + 1)
    ensures names[k] in source && Copied(source, target[names[k] := file], names, k + 1)
    ensures file == source[names[k]] ==> Copied(source, target[names[k] := file], names, k)
  {
  }

  lemma WithinFile(file: seq<Byte>, there: seq<Byte>, sent: nat, ps: seq<Write>, ws: seq<Write>, got: nat)
    requires Placed(file, there, sent, ps, ws, got)
    ensures got <= sent <= |file|
  {
  }
}

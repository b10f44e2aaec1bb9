/** The reference count of a transfer task under any callbacks, results and commands. */
module FileRefs {
  import opened Bytes
  import opened SerialStructs
  import opened FileTask

  // A callback fires, with any result, or any command arrives.
  datatype Event =
    | OnOpen(failed: bool, stat: Stat)
    | OnReadDone(i: nat, failed: bool, data: seq<Byte>, sent: bool)
    | OnWriteDone(i: nat, failed: bool)
    | OnClose
    | OnCommand(command: Command)

  predicate Enabled(t: Task, e: Event) {
    match e
    case OnOpen(_, _) => t.pending.opens > 0
    case OnReadDone(i, _, data, _) => i < |t.pending.reading| && |data| < TWO32
    case OnWriteDone(i, _) => i < |t.pending.writing|
    case OnClose => t.pending.closes > 0
    case OnCommand(_) => true
  }

  function Step(t: Task, e: Event): Task
    requires Enabled(t, e)
  {
    match e
    case OnOpen(failed, stat) => Opened(t, failed, stat)
    case OnReadDone(i, failed, data, sent) => ReadDone(t, i, failed, data, sent)
    case OnWriteDone(i, failed) => WriteDone(t, i, failed)
    case OnClose => Closed(t)
    case OnCommand(c) => Dispatch(t, c)
  }

  predicate Feasible(t: Task, es: seq<Event>)
    decreases |es|
  {
    es == [] || (Enabled(t, es[0]) && Feasible(Step(t, es[0]), es[1..]))
  }

  function Run(t: Task, es: seq<Event>): Task
    requires Feasible(t, es)
    decreases |es|
  {
    if es == [] then t else Run(Step(t, es[0]), es[1..])
  }

  // A slave whose transfer is not finished is made to read on: by a BEGIN, or because it was the master
  // when it requested a read that now completes. It counts a request that it never makes.
  predicate StrayRead(t: Task, e: Event) {
    !t.master && !t.ioFinish &&
    match e
    case OnCommand(c) => c.Begin?
    case OnReadDone(_, failed, data, sent) => !failed && sent && (t.indexIO + |data|) % TWO64 < t.fileSize
    case _ => false
  }

  function StrayReads(t: Task, es: seq<Event>): nat
    requires Feasible(t, es)
    decreases |es|
  {
    if es == [] then 0 else (if StrayRead(t, es[0]) then 1 else 0) + StrayReads(Step(t, es[0]), es[1..])
  }

  // References beyond those of the pending requests.
  function Surplus(t: Task): int {
    t.refCount - t.pending.Count()
  }

  lemma ReadFileCounts(t: Task, index: U64, size: nat)
    ensures Surplus(ReadFile(t, index, size)) == Surplus(t) + (if !t.master && !t.ioFinish && size > 0 then 1 else 0)
  {
  }

  lemma OnReadCounts(t: Task, data: seq<Byte>, sent: bool)
    requires |data| < TWO32 && !t.ioFinish
    ensures Surplus(OnRead(t, data, sent)) ==
            Surplus(t) + (if sent && !t.master && (t.indexIO + |data|) % TWO64 < t.fileSize then 1 else 0)
  {
    hide DataPayload, ReadFile, Requests.Count;
    if sent {
      var t1 := Advanced(t, |data|);
      var t2 := Sent(t1, Data(DataPayload(t.config.compressType, (t1.indexIO - |data|) % TWO64, data)));
      ReadFileCounts(t2, t2.indexIO, CHUNK);
    }
  }

  lemma EndCounts(t: Task)
    ensures Surplus(EndOfIO(t)) == Surplus(t) - 1
  {
  }

  lemma ReadDoneCounts(t: Task, i: nat, failed: bool, data: seq<Byte>, sent: bool)
    requires i < |t.pending.reading| && |data| < TWO32
    ensures Surplus(ReadDone(t, i, failed, data, sent)) ==
            Surplus(t) + (if StrayRead(t, OnReadDone(i, failed, data, sent)) then 1 else 0)
  {
    hide OnRead, EndOfIO;
    var t1 := t.(pending := t.pending.(reading := Without(t.pending.reading, i)));
    assert Surplus(t1) == Surplus(t) + 1;
    if !t.ioFinish && !failed {
      OnReadCounts(t1, data, sent);
      EndCounts(OnRead(t1, data, sent));
    } else {
      EndCounts(if t.ioFinish then t1 else Failed(t1));
    }
  }

  lemma WriteDoneCounts(t: Task, i: nat, failed: bool)
    requires i < |t.pending.writing|
    ensures Surplus(WriteDone(t, i, failed)) == Surplus(t)
  {
    hide EndOfIO;
    var t1 := t.(pending := t.pending.(writing := Without(t.pending.writing, i)));
    assert Surplus(t1) == Surplus(t) + 1;
    EndCounts(if t.ioFinish then t1 else if failed then Failed(t1) else OnWrite(t1, |t.pending.writing[i].data|));
  }

  lemma RecvCounts(t: Task, payload: seq<Byte>)
    ensures Surplus(RecvIOPayload(t, payload)) == Surplus(t)
  {
    hide ParsePayload;
  }

  lemma CheckCounts(t: Task, payload: seq<Byte>)
    ensures Surplus(SlaveCheck(t, payload)) == Surplus(t)
  {
    hide ParseConfig;
  }

  lemma FinishCounts(t: Task, flag: Byte)
    ensures Surplus(OnFinish(t, flag)) == Surplus(t)
  {
  }

  lemma CommandCounts(t: Task, c: Command)
    ensures Surplus(Dispatch(t, c)) == Surplus(t) + (if StrayRead(t, OnCommand(c)) then 1 else 0)
  {
    hide RecvIOPayload, SlaveCheck, OnFinish, ReadFile;
    match c
    case Begin => ReadFileCounts(t, t.indexIO, CHUNK);
    case Data(payload) => RecvCounts(t, payload);
    case Check(payload) => CheckCounts(t, payload);
    case Finish(flag) => FinishCounts(t, flag);
  }

  lemma StepCounts(t: Task, e: Event)
    requires Enabled(t, e)
    ensures Surplus(Step(t, e)) == Surplus(t) + (if StrayRead(t, e) then 1 else 0)
  {
    hide ReadDone, WriteDone, Dispatch, EncodeConfig;
    match e
    case OnReadDone(i, failed, data, sent) => ReadDoneCounts(t, i, failed, data, sent);
    case OnWriteDone(i, failed) => WriteDoneCounts(t, i, failed);
    case OnCommand(c) => CommandCounts(t, c);
    case OnOpen(_, _) =>
    case OnClose =>
  }

  // Whatever fires or arrives, in whatever order, failing or not, closing once or twice: the count is
  // that of the requests whose callback is still to fire, plus one for every stray read.
  lemma {:induction false} RefCountIsPending(t: Task, es: seq<Event>)
    requires Feasible(t, es) && t.refCount == t.pending.Count()
    ensures var d := Run(t, es); d.refCount == d.pending.Count() + StrayReads(t, es)
    decreases |es|
  {
    RefCountFrom(t, es);
  }

  lemma {:induction false} RefCountFrom(t: Task, es: seq<Event>)
    requires Feasible(t, es)
    ensures Surplus(Run(t, es)) == Surplus(t) + StrayReads(t, es)
    decreases |es|
  {
    hide Step, Enabled, StrayRead, Surplus;
    if es != [] {
      StepCounts(t, es[0]);
      RefCountFrom(Step(t, es[0]), es[1..]);
    }
  }

  // A task is ready for release exactly when no callback can fire any more and no read went astray.
  lemma ReadyForReleaseIff(t: Task, es: seq<Event>)
    requires Feasible(t, es) && t.refCount == t.pending.Count()
    ensures var d := Run(t, es);
            d.ReadyForRelease() <==>
            StrayReads(t, es) == 0 && d.pending.opens == 0 && d.pending.reading == [] && d.pending.writing == [] && d.pending.closes == 0
  {
    hide Run, Feasible, StrayReads;
    RefCountIsPending(t, es);
  }

  // The count does drift: a new task that is sent BEGIN counts a request it never makes, so that
  // whatever follows it is never ready for release.
  lemma BegunSlaveIsNeverReleased(es: seq<Event>)
    requires Feasible(Step(NewTask(), OnCommand(Begin)), es)
    ensures var t := Step(NewTask(), OnCommand(Begin));
            && t.refCount == 1 && t.pending.Count() == 0
            && !Run(t, es).ReadyForRelease()
  {
    hide Run, Feasible, StrayReads;
    RefCountFrom(Step(NewTask(), OnCommand(Begin)), es);
  }

  // A read or a write that fails ends the transfer: it is finished and will be notified, the file is to
  // be closed, the request is gone, and nothing else is asked of the file system.
  lemma FailureCloses(t: Task, e: Event)
    requires !t.ioFinish && Enabled(t, e) && ((e.OnReadDone? && e.failed) || (e.OnWriteDone? && e.failed))
    ensures var d := Step(t, e);
            && d.ioFinish && d.closeNotify && d.closings == t.closings + 1 && d.pending.closes == t.pending.closes + 1
            && d.refCount == t.refCount && d.pending.opens == t.pending.opens && d.out == t.out && d.indexIO == t.indexIO
            && |d.pending.reading| + |d.pending.writing| + 1 == |t.pending.reading| + |t.pending.writing|
            && d.over == t.over
  {
  }

  predicate AsksNoMore(t: Task, d: Task) {
    d.ioFinish && |d.pending.reading| <= |t.pending.reading| && |d.pending.writing| <= |t.pending.writing|
  }

  lemma CommandAfterFailure(t: Task, c: Command)
    requires t.ioFinish
    ensures AsksNoMore(t, Dispatch(t, c))
  {
    hide ParsePayload, ParseConfig;
  }

  lemma EndAfterFailure(t: Task)
    requires t.ioFinish
    ensures AsksNoMore(t, EndOfIO(t))
  {
  }

  // Whatever else completes or arrives then, but for a new file, asks for no read and no write.
  lemma NothingAfterFailure(t: Task, e: Event)
    requires t.ioFinish && Enabled(t, e) && !e.OnOpen?
    ensures AsksNoMore(t, Step(t, e))
  {
    hide EndOfIO, Dispatch;
    match e
    case OnReadDone(i, _, _, _) => EndAfterFailure(t.(pending := t.pending.(reading := Without(t.pending.reading, i))));
    case OnWriteDone(i, _) => EndAfterFailure(t.(pending := t.pending.(writing := Without(t.pending.writing, i))));
    case OnCommand(c) => CommandAfterFailure(t, c);
    case OnClose =>
  }

  // The close that follows tells the other side, once.
  lemma NotifiedClose(t: Task)
    requires t.pending.closes > 0
    ensures var d := Step(t, OnClose);
            && d.pending.closes == t.pending.closes - 1 && d.refCount == t.refCount - 1
            && d.out == t.out + (if t.closeNotify then [Finish(1)] else [])
            && d.fileCnt == (if t.closeNotify then (t.fileCnt + 1) % TWO32 else t.fileCnt)
            && d.dirSize == (if t.closeNotify then (t.dirSize + t.indexIO) % TWO64 else t.dirSize)
  {
  }

  // A file that cannot be opened ends the task and asks for nothing.
  lemma FailedOpenEnds(t: Task, stat: Stat)
    requires t.pending.opens > 0
    ensures var d := Step(t, OnOpen(true, stat));
            d.over && d.out == t.out && d.refCount == t.refCount - 1 && d.pending == t.pending.(opens := t.pending.opens - 1)
  {
  }

  // Data read that cannot be sent on ends the transfer without a notice, and the file is to be closed.
  lemma UnsentEnds(t: Task, i: nat, data: seq<Byte>)
    requires !t.ioFinish && i < |t.pending.reading| && |data| < TWO32
    ensures var d := Step(t, OnReadDone(i, false, data, false));
            && d.ioFinish && d.closeNotify == t.closeNotify && d.closings == t.closings + 1 && d.out == t.out
            && d.pending == t.pending.(reading := t.pending.reading[..i] + t.pending.reading[i + 1..], closes := t.pending.closes + 1)
  {
  }
}

/** What every run of a transfer comes to. */
module FileRuns {
  import opened SerialStructs
  import opened FileTask
  import opened FileTransfer
  import opened FileSafety

  lemma StepFollows(c: Sys, names: seq<Name>, phase: Phase, e: Event) returns (next: Phase)
    requires At(c, names, phase) && Enabled(c, e)
    ensures Follows(c, names, phase, Step(c, e), next)
  {
    hide Follows, Step, SizeSum, Placed, Transferable, Copied, DataPayload, EncodeConfig;
    match e {
      case MasterClosed =>
        MasterCloses(c, names, phase);
        next := phase;
      case MasterOpened(atime, mtime) =>
        assert phase.MOpening?;
        MasterOpens(c, names, atime, mtime);
        next := Checking;
      case MasterRead(n) =>
        assert phase.Moving?;
        MasterReads(c, names, phase.ps, n);
        next := Moving(phase.ps + [Write(c.m.indexIO, Now(c)[c.m.indexIO..c.m.indexIO + n])]);
      case MasterReceives =>
        assert phase.Beginning? || phase.Finishing?;
        if phase.Beginning? {
          MasterBegins(c, names);
          next := Moving([]);
        } else {
          MasterGoesOn(c, names);
          next := if c.m.taskQueue != [] then MOpening else Ending;
        }
      case SlaveOpened =>
        assert phase.SOpening?;
        SlaveOpens(c, names);
        next := Beginning;
      case SlaveWrote(i) =>
        assert phase.Moving?;
        SlaveWrites(c, names, phase.ps, i);
        BasicsMean(c, names);
        next := if c.s.indexIO + |c.s.pending.writing[i].data| < |Now(c)| then phase else Closing;
      case SlaveClosed =>
        assert phase.Closing?;
        SlaveFinishes(c, names);
        next := Finishing;
      case SlaveReceives =>
        assert phase.Checking? || phase.Moving? || phase.Ending?;
        if phase.Checking? {
          SlaveChecks(c, names);
          next := SOpening;
        } else if phase.Moving? {
          SlaveReceivesData(c, names, phase.ps);
          next := Moving(phase.ps[1..]);
        } else {
          SlaveEnds(c, names);
          next := Over;
        }
    }
  }

  lemma {:induction false} RunFollows(c: Sys, names: seq<Name>, phase: Phase, es: seq<Event>) returns (last: Phase)
    requires At(c, names, phase) && Feasible(c, es)
    ensures At(Run(c, es), names, last) && Run(c, es).source == c.source
    ensures |es| + FileSafety.Left(Run(c, es), names, last) <= FileSafety.Left(c, names, phase)
    decreases |es|
  {
    hide At, Step, Enabled, FileSafety.Left;
    if es == [] {
      last := phase;
    } else {
      var next := StepFollows(c, names, phase, es[0]);
      last := RunFollows(Step(c, es[0]), names, next, es[1..]);
    }
  }

  lemma StartIsOpening(config: TransferConfig, path: Name, source: Disk, names: seq<Name>)
    requires Transferable(source, names)
    ensures At(Start(config, path, source, names), names, MOpening)
    ensures FileSafety.Left(Start(config, path, source, names), names, MOpening) == Work(source, names) + 1
  {
  }

  // Unless the transfer is over something can happen.
  lemma NeverStuck(c: Sys, names: seq<Name>, phase: Phase) returns (e: Event)
    requires At(c, names, phase) && !phase.Over?
    ensures Enabled(c, e)
  {
    hide SizeSum, Placed, Copied, DataPayload, EncodeConfig;
    match phase {
      case MOpening => e := MasterOpened(0, 0);
      case Checking => e := SlaveReceives;
      case SOpening => e := SlaveOpened;
      case Beginning => e := MasterReceives;
      case Moving(ps) =>
        if ps != [] {
          e := SlaveReceives;
        } else if c.s.pending.writing != [] {
          e := SlaveWrote(0);
        } else {
          SomethingToRead(c, names);
          var left := |Now(c)| - c.m.indexIO;
          e := MasterRead(if left < CHUNK then left else CHUNK);
        }
      case Closing => e := SlaveClosed;
      case Finishing => e := MasterReceives;
      case Ending => e := SlaveReceives;
    }
  }

  lemma SomethingToRead(c: Sys, names: seq<Name>)
    requires At(c, names, Moving([])) && c.s.pending.writing == []
    ensures c.m.localName in c.source && c.m.pending.reading == [Read(c.m.indexIO, CHUNK)] && c.m.indexIO <= |Now(c)|
  {
    hide SizeSum, Copied, DataPayload, EncodeConfig;
    assert Total([]) == 0;
  }

  lemma StateMeans(c: Sys, names: seq<Name>, phase: Phase)
    requires At(c, names, phase)
    ensures Transferable(c.source, names) && c.s.fileCnt <= |names|
    ensures Copied(c.source, c.target, names, |names| - c.s.fileCnt)
    ensures c.s.dirSize == SizeSum(c.source, names[|names| - c.s.fileCnt..])
    ensures c.s.over <==> phase.Over?
    ensures phase.Over? ==> c.s.fileCnt == |names| && c.m.closings == |names| && c.s.closings == |names|
  {
    hide Placed, Reading, InTransit, SizeSum, Copied, DataPayload, EncodeConfig;
    CopiedFrom(c.source, c.target, names, |c.m.taskQueue|, |names| - c.s.fileCnt);
  }

  lemma CopiedFrom(source: Disk, target: Disk, names: seq<Name>, k: nat, j: int)
    requires Transferable(source, names)
    ensures j >= 0 && Copied(source, target, names, k) && k <= j ==> Copied(source, target, names, j)
    ensures j >= 0 && Copied(source, target, names, k + 1) && k + 1 <= j ==> Copied(source, target, names, j)
  {
  }

  // Every run of a transfer, whatever the order in which reads, writes, closes and commands complete,
  // takes no more steps than a number known from the sizes, and until it is over something can happen.
  lemma EveryRunEnds(config: TransferConfig, path: Name, source: Disk, names: seq<Name>, es: seq<Event>)
    requires Transferable(source, names) && Feasible(Start(config, path, source, names), es)
    ensures |es| <= Work(source, names) + 1
    ensures var c := Run(Start(config, path, source, names), es); !c.s.over ==> exists e :: Enabled(c, e)
  {
    hide Run, Feasible, At, SizeSum, Copied, Transferable, Enabled;
    StartIsOpening(config, path, source, names);
    var phase := RunFollows(Start(config, path, source, names), names, MOpening, es);
    var c := Run(Start(config, path, source, names), es);
    StateMeans(c, names, phase);
    if !phase.Over? {
      var e := NeverStuck(c, names, phase);
    }
  }

  // At every moment of every run the files counted are the ones at the back of the list, and they are
  // copied byte for byte; when it is over that is all of them, and the count, the sum of the sizes and
  // the number of closes on either side are right.
  lemma EveryRunCopiesEveryFile(config: TransferConfig, path: Name, source: Disk, names: seq<Name>, es: seq<Event>)
    requires Transferable(source, names) && Feasible(Start(config, path, source, names), es)
    ensures var c := Run(Start(config, path, source, names), es);
            && c.s.fileCnt <= |names|
            && Copied(source, c.target, names, |names| - c.s.fileCnt)
            && c.s.dirSize == SizeSum(source, names[|names| - c.s.fileCnt..])
            && (c.s.over ==> c.s.fileCnt == |names| && c.m.closings == |names| && c.s.closings == |names|)
  {
    hide Run, Feasible, At, SizeSum, Copied, Transferable, Enabled;
    StartIsOpening(config, path, source, names);
    var phase := RunFollows(Start(config, path, source, names), names, MOpening, es);
    StateMeans(Run(Start(config, path, source, names), es), names, phase);
  }

  lemma LastByte(c: Sys, names: seq<Name>, ps: seq<Write>, i: nat)
    requires At(c, names, Moving(ps)) && Enabled(c, SlaveWrote(i))
    ensures var d, file := Step(c, SlaveWrote(i)), c.source[c.s.localName];
            && c.s.localName in c.source && !c.s.ioFinish && c.s.localName in d.target
            && d.s.indexIO == c.s.indexIO + |c.s.pending.writing[i].data| <= |file|
            && (d.s.ioFinish <==> d.s.indexIO == |file|)
            && d.s.closings == c.s.closings + (if d.s.ioFinish then 1 else 0)
            && (d.s.ioFinish ==> d.target[c.s.localName] == file && d.s.pending.writing == [] && d.m.out == [])
  {
    hide SizeSum, DataPayload, Placed, Basics, WriteDone, WriteAt;
    BasicsMean(c, names);
    var w, there, d := c.s.pending.writing[i], c.target[c.s.localName], Step(c, SlaveWrote(i));
    PieceWritten(Now(c), there, c.m.indexIO, ps, c.s.pending.writing, c.s.indexIO, i);
    WriteIs(c.s, i);
    WithinFile(Now(c), d.target[c.s.localName], c.m.indexIO, ps, d.s.pending.writing, c.s.indexIO + |w.data|);
    if c.s.indexIO + |w.data| >= |Now(c)| {
      AllWritten(Now(c), d.target[c.s.localName], c.m.indexIO, ps, d.s.pending.writing, c.s.indexIO + |w.data|);
    }
  }

  lemma OnlyMovingWrites(c: Sys, names: seq<Name>, phase: Phase, i: nat)
    requires At(c, names, phase) && Enabled(c, SlaveWrote(i))
    ensures phase.Moving?
  {
    hide SizeSum, DataPayload, Basics;
  }

  // The slave's transfer of a file finishes at the step where the bytes written sum up to its size, and
  // only then; the target is the master's file, no write is under way and no data is on its way.
  lemma FinishesAtTheLastByte(config: TransferConfig, path: Name, source: Disk, names: seq<Name>, es: seq<Event>, i: nat)
    requires Transferable(source, names)
    requires Feasible(Start(config, path, source, names), es)
    requires Enabled(Run(Start(config, path, source, names), es), SlaveWrote(i))
    ensures var c := Run(Start(config, path, source, names), es);
            && c.s.localName in source
            && var d, file := Step(c, SlaveWrote(i)), source[c.s.localName];
            && !c.s.ioFinish && c.s.localName in d.target
            && d.s.indexIO == c.s.indexIO + |c.s.pending.writing[i].data| <= |file|
            && (d.s.ioFinish <==> d.s.indexIO == |file|)
            && d.s.closings == c.s.closings + (if d.s.ioFinish then 1 else 0)
            && (d.s.ioFinish ==> d.target[c.s.localName] == file && d.s.pending.writing == [] && d.m.out == [])
  {
    hide Run, Feasible, At, Step, Transferable;
    StartIsOpening(config, path, source, names);
    var phase := RunFollows(Start(config, path, source, names), names, MOpening, es);
    var c := Run(Start(config, path, source, names), es);
    OnlyMovingWrites(c, names, phase, i);
    LastByte(c, names, phase.ps, i);
  }

  // In every state of a transfer each side's reference count is the number of its pending requests, so
  // a side is ready for release only when no callback can still fire.
  lemma CountsArePending(config: TransferConfig, path: Name, source: Disk, names: seq<Name>, es: seq<Event>)
    requires Transferable(source, names) && Feasible(Start(config, path, source, names), es)
    ensures var c := Run(Start(config, path, source, names), es);
            && c.m.refCount == c.m.pending.Count() && c.s.refCount == c.s.pending.Count()
            && (c.s.over ==> c.s.ReadyForRelease() && c.m.refCount == c.m.pending.closes)
  {
    hide Run, Feasible, Placed, SizeSum, Transferable, DataPayload, EncodeConfig;
    StartIsOpening(config, path, source, names);
    var phase := RunFollows(Start(config, path, source, names), names, MOpening, es);
  }
}

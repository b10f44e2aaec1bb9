/** What the slave is told of each file: path, name, size and times, over every run. */
module FileTold {
  import opened Bytes
  import opened SerialStructs
  import opened FileTask
  import opened FileTransfer
  import opened FileSafety
  import opened FileRuns

  // The times the file system gave for the file opened last by the master.
  datatype Times = Times(atime: U64, mtime: U64)

  function LastOpened(es: seq<Event>, was: Times): Times
    decreases |es|
  {
    if es == [] then was
    else LastOpened(es[1..], if es[0].MasterOpened? then Times(es[0].atime, es[0].mtime) else was)
  }

  // The configuration of one file: what the transfer was begun with, the path it was begun for, the name
  // and size of the file, and its times if they are to be kept.
  function Announcement(config: TransferConfig, path: Name, name: Name, size: U64, times: Times): TransferConfig {
    TransferConfig(
      size,
      if config.holdTimestamp then times.atime else config.atime,
      if config.holdTimestamp then times.mtime else config.mtime,
      config.options, path, name, config.updateIfNew, config.compressType, config.holdTimestamp,
      config.functionName, config.clientCwd, config.reserve1, config.reserve2)
  }

  // Nothing but what an announcement sets has changed.
  predicate Derived(now: TransferConfig, config: TransferConfig) {
    now == Announcement(config, now.path, now.optionalName, now.fileSize, Times(now.atime, now.mtime))
  }

  predicate CheckUnderWay(c: Sys) {
    c.m.out != [] && c.m.out[0].Check?
  }

  // The master has announced its file once it is open; the slave knows it once that has arrived.
  predicate Told(c: Sys, config: TransferConfig, path: Name, times: Times) {
    && c.m.remotePath == path && Derived(c.m.config, config)
    && (c.m.pending.opens == 0 ==>
         && c.m.localName in c.source && |Now(c)| < TWO64
         && c.m.config == Announcement(config, path, c.m.localName, |Now(c)|, times))
    && (c.m.pending.opens == 0 && !CheckUnderWay(c) ==> c.s.config == c.m.config)
  }

  lemma OpeningTells(c: Sys, names: seq<Name>, config: TransferConfig, path: Name, times: Times, now: Times)
    requires At(c, names, MOpening) && Told(c, config, path, times)
    ensures Told(Step(c, MasterOpened(now.atime, now.mtime)), config, path, now)
  {
    hide EncodeConfig, SizeSum, Copied, ClosedOnce;
  }

  lemma CheckTells(c: Sys, names: seq<Name>, config: TransferConfig, path: Name, times: Times)
    requires At(c, names, Checking) && Told(c, config, path, times)
    ensures Told(Step(c, SlaveReceives), config, path, times)
  {
    hide EncodeConfig, ParseConfig, SizeSum, Copied, ClosedOnce, Announcement;
    CheckArrives(c.s.config, c.m.config);
  }

  // A close changes neither configuration nor names.
  lemma ClosingTells(c: Sys, names: seq<Name>, phase: Phase, config: TransferConfig, path: Name, times: Times)
    requires At(c, names, phase) && Enabled(c, MasterClosed) && Told(c, config, path, times)
    ensures Told(Step(c, MasterClosed), config, path, times)
  {
    hide EncodeConfig, DataPayload, SizeSum, Copied, ClosedOnce, Announcement, Placed, Derived, IsMoving, Counts;
  }

  predicate SameNames(t: Task, d: Task) {
    && d.config == t.config && d.remotePath == t.remotePath && d.localName == t.localName
    && d.pending.opens == t.pending.opens && t.out <= d.out
    && forall i | |t.out| <= i < |d.out| :: d.out[i].Data?
  }

  lemma EndKeepsNames(t: Task)
    ensures SameNames(t, EndOfIO(t))
  {
  }

  lemma OnReadKeepsNames(t: Task, data: seq<Byte>)
    requires |data| < TWO32
    ensures SameNames(t, OnRead(t, data, true))
  {
    hide DataPayload;
  }

  lemma ReadKeepsNames(t: Task, i: nat, data: seq<Byte>)
    requires i < |t.pending.reading| && |data| < TWO32
    ensures SameNames(t, ReadDone(t, i, false, data, true))
  {
    hide OnRead, EndOfIO;
    var t1 := t.(pending := t.pending.(reading := Without(t.pending.reading, i)));
    OnReadKeepsNames(t1, data);
    EndKeepsNames(if t.ioFinish then t1 else OnRead(t1, data, true));
  }

  lemma WriteKeepsNames(t: Task, i: nat)
    requires i < |t.pending.writing|
    ensures SameNames(t, WriteDone(t, i, false))
  {
    hide EndOfIO;
    var t1 := t.(pending := t.pending.(writing := Without(t.pending.writing, i)));
    EndKeepsNames(if t.ioFinish then t1 else OnWrite(t1, |t.pending.writing[i].data|));
  }

  // Nor do reads, writes and DATA.
  lemma MovingTells(c: Sys, names: seq<Name>, ps: seq<Write>, e: Event, config: TransferConfig, path: Name, times: Times)
    requires At(c, names, Moving(ps)) && Enabled(c, e) && Told(c, config, path, times)
    requires !e.MasterOpened? && !e.MasterClosed?
    ensures Told(Step(c, e), config, path, times)
  {
    hide EncodeConfig, DataPayload, SizeSum, Copied, ClosedOnce, Announcement, Placed, WriteAt, RecvIOPayload, Counts, Derived,
      ReadDone, WriteDone;
    match e
    case SlaveReceives => DataChangesNoConfig(c, ps);
    case MasterRead(n) =>
      var at := c.m.pending.reading[0].index;
      ReadKeepsNames(c.m, 0, c.source[c.m.localName][at..at + n]);
    case SlaveWrote(i) => WriteKeepsNames(c.s, i);
    case _ =>
  }

  // Nor do the other steps between the CHECK and the next file; that one is announced anew.
  lemma OthersTell(c: Sys, names: seq<Name>, phase: Phase, e: Event, config: TransferConfig, path: Name, times: Times)
    requires At(c, names, phase) && Enabled(c, e) && Told(c, config, path, times)
    requires !e.MasterOpened? && !e.MasterClosed? && !phase.Checking? && !phase.Moving?
    ensures Told(Step(c, e), config, path, times)
  {
    hide EncodeConfig, ParseConfig, SizeSum, Copied, ClosedOnce, Announcement, IsMoving, Counts, Derived;
  }

  lemma DataChangesNoConfig(c: Sys, ps: seq<Write>)
    requires InTransit(c, ps) && c.m.out != []
    ensures c.m.out[0].Data? && RecvIOPayload(c.s, c.m.out[0].payload).config == c.s.config
    ensures forall i | 0 <= i < |c.m.out| :: c.m.out[i].Data?
  {
    hide DataPayload, ParsePayload;
  }

  lemma OnlyTheseEvents(c: Sys, names: seq<Name>, phase: Phase, e: Event)
    requires At(c, names, phase) && Enabled(c, e)
    ensures e.MasterOpened? ==> phase.MOpening?
    ensures phase.Checking? ==> e == SlaveReceives || e == MasterClosed
  {
    hide EncodeConfig, DataPayload, SizeSum, Copied, ClosedOnce, Placed, Counts;
  }

  lemma StepTells(c: Sys, names: seq<Name>, phase: Phase, e: Event, config: TransferConfig, path: Name, times: Times)
    requires At(c, names, phase) && Enabled(c, e) && Told(c, config, path, times)
    ensures Told(Step(c, e), config, path, LastOpened([e], times))
  {
    hide At, Told, Enabled, Step;
    assert [e][1..] == [];
    OnlyTheseEvents(c, names, phase, e);
    if e.MasterOpened? {
      OpeningTells(c, names, config, path, times, Times(e.atime, e.mtime));
    } else if e.MasterClosed? {
      ClosingTells(c, names, phase, config, path, times);
    } else if phase.Checking? {
      CheckTells(c, names, config, path, times);
    } else if phase.Moving? {
      MovingTells(c, names, phase.ps, e, config, path, times);
    } else {
      OthersTell(c, names, phase, e, config, path, times);
    }
  }

  lemma {:induction false} RunTells(
    c: Sys, names: seq<Name>, phase: Phase, es: seq<Event>, config: TransferConfig, path: Name, times: Times)
    returns (last: Phase)
    requires At(c, names, phase) && Feasible(c, es) && Told(c, config, path, times)
    ensures At(Run(c, es), names, last) && Told(Run(c, es), config, path, LastOpened(es, times))
    decreases |es|
  {
    hide At, Told, Enabled, Step, FileSafety.Left;
    if es == [] {
      last := phase;
    } else {
      var next := StepFollows(c, names, phase, es[0]);
      StepTells(c, names, phase, es[0], config, path, times);
      assert [es[0]][1..] == [];
      last := RunTells(Step(c, es[0]), names, next, es[1..], config, path, LastOpened([es[0]], times));
    }
  }

  lemma StartTells(config: TransferConfig, path: Name, source: Disk, names: seq<Name>, times: Times)
    requires Transferable(source, names)
    ensures At(Start(config, path, source, names), names, MOpening)
    ensures Told(Start(config, path, source, names), config, path, times)
  {
    StartIsOpening(config, path, source, names);
  }

  // What the phases say of the names.
  lemma NamesAgree(c: Sys, names: seq<Name>, phase: Phase)
    requires At(c, names, phase)
    ensures c.s.pending.Count() > 0 ==> c.m.pending.opens == 0 && !CheckUnderWay(c)
    ensures c.s.pending.opens + |c.s.pending.writing| > 0 ==> c.s.localName == c.m.localName
  {
    hide EncodeConfig, DataPayload, SizeSum, Copied, ClosedOnce, Placed, Counts;
    if phase.Moving? && c.m.out != [] {
      DataChangesNoConfig(c, phase.ps);
    }
  }

  // Over every run: the CHECK on its way announces the master's file under the path the transfer was
  // begun for, with its name and size, and with the times the file system gave exactly if they are to be
  // kept; and whenever the slave has a request for a file pending, that is the configuration it holds and
  // that file is the one it opens and writes.
  lemma SlaveIsTold(config: TransferConfig, path: Name, source: Disk, names: seq<Name>, es: seq<Event>)
    requires Transferable(source, names) && Feasible(Start(config, path, source, names), es)
    ensures var c, times := Run(Start(config, path, source, names), es), LastOpened(es, Times(0, 0));
            && (CheckUnderWay(c) ==>
                 && c.m.localName in source && |source[c.m.localName]| < TWO64
                 && ParseConfig(c.s.config, c.m.out[0].payload) ==
                    Announcement(config, path, c.m.localName, |source[c.m.localName]|, times))
            && (c.s.pending.Count() > 0 ==>
                 && c.m.localName in source && |source[c.m.localName]| < TWO64
                 && c.s.config == Announcement(config, path, c.m.localName, |source[c.m.localName]|, times))
            && (c.s.pending.opens + |c.s.pending.writing| > 0 ==> c.s.localName == c.m.localName)
  {
    assert names != [];
    hide Run, Feasible, At, Transferable, ParseConfig, EncodeConfig, Announcement, LastOpened, Requests.Count, Start;
    StartTells(config, path, source, names, Times(0, 0));
    var start := Start(config, path, source, names);
    var phase := RunFollows(start, names, MOpening, es);
    var last := RunTells(start, names, MOpening, es, config, path, Times(0, 0));
    NamesAgree(Run(start, es), names, last);
    if CheckUnderWay(Run(start, es)) {
      CheckIsOfTheFile(Run(start, es), names, last, config, path, LastOpened(es, Times(0, 0)));
    }
  }

  lemma CheckIsOfTheFile(c: Sys, names: seq<Name>, phase: Phase, config: TransferConfig, path: Name, times: Times)
    requires At(c, names, phase) && Told(c, config, path, times) && CheckUnderWay(c)
    ensures c.m.pending.opens == 0 && c.m.out[0].payload == EncodeConfig(c.m.config)
    ensures ParseConfig(c.s.config, c.m.out[0].payload) == c.m.config
  {
    hide EncodeConfig, ParseConfig, DataPayload, SizeSum, Copied, ClosedOnce, Placed, Counts;
    if phase.Moving? {
      DataChangesNoConfig(c, phase.ps);
    }
    CheckArrives(c.s.config, c.m.config);
  }
}

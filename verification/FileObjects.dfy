/** The objects of a transfer driven by the event loop: whole sequences of calls of HdcFile. */
module FileObjects {
  import opened SerialStructs
  import opened FileTask
  import opened FileTransfer
  import opened FileCallbacks
  import FileRefs
  import FileSafety
  import FileRuns

  // ---- any callbacks and commands on one object -------------------------------------------------

  // The callback or command of one event, with its result.
  method Call(file: HdcFile, e: FileRefs.Event)
    requires FileRefs.Enabled(file.State(), e)
    modifies file
    ensures file.State() == FileRefs.Step(old(file.State()), e)
  {
    hide Opened, ReadDone, WriteDone, Closed, Dispatch;
    match e {
      case OnOpen(failed, stat) => file.OnFileOpen(failed, stat);
      case OnReadDone(i, failed, data, sent) => file.OnFileRead(i, if failed then -1 else |data|, data, sent);
      case OnWriteDone(i, failed) => file.OnFileWrite(i, if failed then -1 else |file.pending.writing[i].data|);
      case OnClose => file.OnFileClose();
      case OnCommand(command) => file.CommandDispatch(command);
    }
  }

  // After any sequence of callbacks and commands the object's refCount is the number of its requests
  // whose callback is still to fire, plus one for every stray read.
  method RunLoop(file: HdcFile, es: seq<FileRefs.Event>)
    requires FileRefs.Feasible(file.State(), es) && file.refCount == file.pending.Count()
    modifies file
    ensures file.State() == FileRefs.Run(old(file.State()), es)
    ensures file.refCount == file.pending.Count() + FileRefs.StrayReads(old(file.State()), es)
  {
    hide FileRefs.Enabled, FileRefs.Step, FileRefs.StrayReads;
    ghost var t := file.State();
    FileRefs.RefCountIsPending(t, es);
    assert es[0..] == es;
    for k := 0 to |es|
      invariant FileRefs.Feasible(file.State(), es[k..])
      invariant FileRefs.Run(file.State(), es[k..]) == FileRefs.Run(t, es)
    {
      assert es[k..][1..] == es[k + 1..];
      Call(file, es[k]);
    }
    assert es[|es|..] == [];
  }

  // ---- a master and a slave ------------------------------------------------------------------------

  // One event of the transfer, on the objects and on what the slave has written.
  method Happen(m: HdcFile, s: HdcFile, source: Disk, target: Disk, e: Event) returns (disk: Disk)
    requires m != s && Enabled(Sys(m.State(), s.State(), source, target), e)
    modifies m, s
    ensures Sys(m.State(), s.State(), source, disk) == Step(old(Sys(m.State(), s.State(), source, target)), e)
  {
    hide Opened, ReadDone, WriteDone, Closed, Dispatch, WriteAt;
    disk := target;
    match e {
      case MasterOpened(atime, mtime) => m.OnFileOpen(false, Stat(Size(source[m.localName]), atime, mtime));
      case MasterRead(n) =>
        var at := m.pending.reading[0].index;
        m.OnFileRead(0, n, source[m.localName][at..at + n], true);
      case MasterClosed => m.OnFileClose();
      case MasterReceives =>
        var command := s.sent[0];
        s.sent := s.sent[1..];
        m.CommandDispatch(command);
      case SlaveOpened =>
        disk := target[s.localName := []];
        s.OnFileOpen(false, NO_STAT);
      case SlaveWrote(i) =>
        var w := s.pending.writing[i];
        disk := target[s.localName := WriteAt(target[s.localName], w.index, w.data)];
        s.OnFileWrite(i, |w.data|);
      case SlaveClosed => s.OnFileClose();
      case SlaveReceives =>
        var command := m.sent[0];
        m.sent := m.sent[1..];
        s.CommandDispatch(command);
    }
  }

  method RunTransfer(m: HdcFile, s: HdcFile, source: Disk, target: Disk, es: seq<Event>) returns (disk: Disk)
    requires m != s && Feasible(Sys(m.State(), s.State(), source, target), es)
    modifies m, s
    ensures Sys(m.State(), s.State(), source, disk) == Run(old(Sys(m.State(), s.State(), source, target)), es)
  {
    hide Enabled, Step;
    ghost var c := Sys(m.State(), s.State(), source, target);
    disk := target;
    assert es[0..] == es;
    for k := 0 to |es|
      invariant Feasible(Sys(m.State(), s.State(), source, disk), es[k..])
      invariant Run(Sys(m.State(), s.State(), source, disk), es[k..]) == Run(c, es)
    {
      assert es[k..][1..] == es[k + 1..];
      disk := Happen(m, s, source, disk, es[k]);
    }
    assert es[|es|..] == [];
  }

  // What the slave has counted is copied byte for byte; once it is finished that is all of the files,
  // each closed once on either side, and the slave has no request left.
  ghost predicate Copies(c: Sys, source: Disk, names: seq<Name>)
    requires FileSafety.Transferable(source, names)
  {
    && c.s.fileCnt <= |names| && FileSafety.Copied(source, c.target, names, |names| - c.s.fileCnt)
    && c.s.dirSize == FileSafety.SizeSum(source, names[|names| - c.s.fileCnt..])
    && c.m.refCount == c.m.pending.Count() && c.s.refCount == c.s.pending.Count()
    && (c.s.over ==> c.s.fileCnt == |names| && c.m.closings == |names| && c.s.closings == |names| && c.s.refCount == 0)
  }

  lemma RunCopies(config: TransferConfig, path: Name, source: Disk, names: seq<Name>, es: seq<Event>)
    requires FileSafety.Transferable(source, names) && Feasible(Start(config, path, source, names), es)
    ensures Copies(Run(Start(config, path, source, names), es), source, names)
  {
    hide FileSafety.Transferable, FileSafety.Copied, FileSafety.SizeSum, Feasible, Run, Start, Requests.Count;
    FileRuns.EveryRunCopiesEveryFile(config, path, source, names, es);
    FileRuns.CountsArePending(config, path, source, names, es);
  }

  // Two objects that transfer the files of a list, in any order of completions and commands.
  method CopyFiles(config: TransferConfig, path: Name, source: Disk, names: seq<Name>, es: seq<Event>)
    returns (m: HdcFile, s: HdcFile, disk: Disk)
    requires FileSafety.Transferable(source, names) && Feasible(Start(config, path, source, names), es)
    ensures fresh(m) && fresh(s) && m != s
    ensures Copies(Sys(m.State(), s.State(), source, disk), source, names)
  {
    assert names != [];
    hide FileSafety.Transferable, Feasible, Run, Copies, Begun, NewTask, HdcFile.State;
    RunCopies(config, path, source, names, es);
    m := new HdcFile();
    s := new HdcFile();
    m.BeginTransfer(config, path, names);
    disk := RunTransfer(m, s, source, map[], es);
  }
}

/** A master and a slave joined by two channels, transferring one file or the files of a directory. */
module FileTransfer {
  import opened Bytes
  import opened SerialStructs
  import opened FileTask

  type Disk = map<Name, seq<Byte>>

  // Both tasks; what the master sent is in m.out until the slave receives it, and the other way round.
  // `source` are the master's files, which do not change, `target` what the slave has written.
  datatype Sys = Sys(m: Task, s: Task, source: Disk, target: Disk)

  // The requests of either side complete, and commands arrive, in any order. Everything asked of the
  // file system is done: opens and closes succeed, writes are full, reads give at least a byte unless
  // the file has none left.
  datatype Event =
    | MasterOpened(atime: U64, mtime: U64)
    | MasterRead(n: nat)
    | MasterClosed
    | MasterReceives
    | SlaveOpened
    | SlaveWrote(i: nat)
    | SlaveClosed
    | SlaveReceives

  predicate CanRead(file: seq<Byte>, r: Read, n: nat) {
    n <= r.size && r.index + n <= |file| && (r.index < |file| ==> n > 0)
  }

  predicate Enabled(c: Sys, e: Event) {
    match e
    case MasterOpened(_, _) => c.m.pending.opens > 0 && c.m.localName in c.source
    case MasterRead(n) =>
      c.m.pending.reading != [] && c.m.localName in c.source && n < TWO32 &&
      CanRead(c.source[c.m.localName], c.m.pending.reading[0], n)
    case MasterClosed => c.m.pending.closes > 0
    case MasterReceives => c.s.out != []
    case SlaveOpened => c.s.pending.opens > 0
    case SlaveWrote(i) => i < |c.s.pending.writing| && c.s.localName in c.target
    case SlaveClosed => c.s.pending.closes > 0
    case SlaveReceives => c.m.out != []
  }

  // A positioned write; a gap in front of it reads as zeros.
  function WriteAt(file: seq<Byte>, index: nat, data: seq<Byte>): seq<Byte> {
    if data == [] then file
    else
      var f := if |file| < index then file + seq(index - |file|, _ => 0) else file;
      f[..index] + data + (if index + |data| < |f| then f[index + |data|..] else [])
  }

  // The slave does not ask for it.
  const NO_STAT := Stat(0, 0, 0)

  function Size(file: seq<Byte>): U64 {
    |file| % TWO64
  }

  function Step(c: Sys, e: Event): Sys
    requires Enabled(c, e)
  {
    match e
    case MasterOpened(atime, mtime) => c.(m := Opened(c.m, false, Stat(Size(c.source[c.m.localName]), atime, mtime)))
    case MasterRead(n) =>
      var at := c.m.pending.reading[0].index;
      c.(m := ReadDone(c.m, 0, false, c.source[c.m.localName][at..at + n], true))
    case MasterClosed => c.(m := Closed(c.m))
    case MasterReceives => c.(m := Dispatch(c.m, c.s.out[0]), s := c.s.(out := c.s.out[1..]))
    case SlaveOpened => c.(s := Opened(c.s, false, NO_STAT), target := c.target[c.s.localName := []])
    case SlaveWrote(i) =>
      var w, name := c.s.pending.writing[i], c.s.localName;
      c.(s := WriteDone(c.s, i, false), target := c.target[name := WriteAt(c.target[name], w.index, w.data)])
    case SlaveClosed => c.(s := Closed(c.s))
    case SlaveReceives => c.(s := Dispatch(c.s, c.m.out[0]), m := c.m.(out := c.m.out[1..]))
  }

  predicate Feasible(c: Sys, es: seq<Event>)
    decreases |es|
  {
    es == [] || (Enabled(c, es[0]) && Feasible(Step(c, es[0]), es[1..]))
  }

  function Run(c: Sys, es: seq<Event>): Sys
    requires Feasible(c, es)
    decreases |es|
  {
    if es == [] then c else Run(Step(c, es[0]), es[1..])
  }

  // BeginTransfer has asked for the last of the names to be opened and queued the others.
  function Start(config: TransferConfig, path: Name, source: Disk, names: seq<Name>): Sys
    requires names != []
  {
    Sys(Begun(NewTask(), config, path, names), NewTask(), source, map[])
  }
}

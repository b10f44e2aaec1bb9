/** One side of a file transfer as values: the callbacks and commands of src/common/transfer.cpp and file.cpp. */
module FileTask {
  import opened Bytes
  import opened SerialStructs

  const CHUNK: nat := 12288  // GetMaxBufSize() * maxTransferBufFactor
  const INT_MAX: nat := 0x7FFF_FFFF

  type Name = StdString

  // The commands of a transfer with their payloads.
  datatype Command = Check(payload: seq<Byte>) | Begin | Data(payload: seq<Byte>) | Finish(flag: Byte)

  datatype Read = Read(index: U64, size: nat)
  datatype Write = Write(index: U64, data: seq<Byte>)

  // What fstat tells of a file, the times in nanoseconds.
  datatype Stat = Stat(size: U64, atime: U64, mtime: U64)

  // File system requests whose callback has not fired.
  datatype Requests = Requests(opens: nat, reading: seq<Read>, writing: seq<Write>, closes: nat) {
    function Count(): nat {
      opens + |reading| + |writing| + closes
    }
  }

  // The transfer context with the task around it. `out` holds the commands sent and not yet received by
  // the other side; `over` says that the task asked for its channel to be closed. `closings` counts the
  // closes ever requested and `leaked` the references taken for requests never made.
  datatype Task = Task(
    master: bool,
    isDir: bool,
    taskQueue: seq<Name>,
    localName: Name,
    remotePath: Name,
    config: TransferConfig,
    fileSize: U64,
    indexIO: U64,
    ioFinish: bool,
    closeNotify: bool,
    fileCnt: U32,
    dirSize: U64,
    refCount: int,
    pending: Requests,
    out: seq<Command>,
    over: bool,
    closings: nat,
    leaked: nat)
  {
    predicate ReadyForRelease() {
      refCount == 0
    }
  }

  // A context as ResetCtx(full) leaves it.
  function NewTask(): Task {
    Task(false, false, [], [], [], TransferConfig(0, 0, 0, [], [], [], false, 0, false, [], [], [], []), 0, 0, false, false,
         0, 0, 0, Requests(0, [], [], 0), [], false, 0, 0)
  }

  function Requested(t: Task, pending: Requests): Task {
    t.(refCount := t.refCount + 1, pending := pending)
  }

  function OpenFile(t: Task): Task {
    Requested(t, t.pending.(opens := t.pending.opens + 1))
  }

  function Sent(t: Task, c: Command): Task {
    t.(out := t.out + [c])
  }

  // ---- transfer.cpp ---------------------------------------------------------------------

  function ResetCtx(t: Task): Task {
    t.(closeNotify := false, indexIO := 0, ioFinish := false)
  }

  // Reading on the master side; a slave asked to read has no data to write, and gives up after it has
  // counted the request.
  function ReadFile(t: Task, index: U64, size: nat): Task {
    if t.ioFinish then t
    else if t.master then Requested(t, t.pending.(reading := t.pending.reading + [Read(index, size)]))
    else if size == 0 then Requested(t, t.pending.(writing := t.pending.writing + [Write(index, [])]))
    else t.(refCount := t.refCount + 1, leaked := t.leaked + 1)
  }

  function WriteFile(t: Task, index: U64, data: seq<Byte>): Task {
    if t.ioFinish then t
    else if t.master then Requested(t, t.pending.(reading := t.pending.reading + [Read(index, |data|)]))
    else Requested(t, t.pending.(writing := t.pending.writing + [Write(index, data)]))
  }

  // `int index` widened again to the uint64_t of the message.
  function NarrowIndex(index: U64): U64 {
    var low := index % TWO32;
    if low <= INT_MAX then low else TWO64 - TWO32 + low
  }

  // The payload of a DATA command, uncompressed.
  function DataPayload(compressType: Byte, index: U64, data: seq<Byte>): (s: seq<Byte>)
    requires |data| < TWO32
    ensures |s| == PAYLOAD_PREFIX_RESERVE + |data|
  {
    Prefix(TransferPayload(NarrowIndex(index), compressType, |data|, |data|)) + data
  }

  function NoPayload(): TransferPayload {
    TransferPayload(0, 0, 0, 0)
  }

  // RecvIOPayload for uncompressed data that is all there; anything else is dropped.
  function RecvIOPayload(t: Task, payload: seq<Byte>): Task {
    if |payload| < PAYLOAD_PREFIX_RESERVE then t
    else
      var p, data := ParsePayload(NoPayload(), payload[..PAYLOAD_PREFIX_RESERVE]), payload[PAYLOAD_PREFIX_RESERVE..];
      if p.compressSize != p.uncompressSize || |data| < p.compressSize then t
      else WriteFile(t, p.index, data[..p.compressSize])
  }

  function CloseFile(t: Task): Task {
    Requested(t, t.pending.(closes := t.pending.closes + 1)).(closings := t.closings + 1)
  }

  // OnFileIO once its request is off the list: the end of the callback closes the file whenever the
  // transfer is found finished, and drops the request's reference.
  function EndOfIO(t: Task): Task {
    var t1 := if t.ioFinish then CloseFile(t) else t;
    t1.(refCount := t1.refCount - 1)
  }

  function Failed(t: Task): Task {
    t.(closeNotify := true, ioFinish := true)
  }

  function Advanced(t: Task, n: nat): Task {
    t.(indexIO := (t.indexIO + n) % TWO64)
  }

  // The next read, until the file is at its end.
  function ReadOn(t: Task): Task {
    if t.indexIO < t.fileSize then ReadFile(t, t.indexIO, CHUNK) else t.(ioFinish := true)
  }

  // A read came back with `data`; `sent` says whether the DATA command could be sent.
  function OnRead(t: Task, data: seq<Byte>, sent: bool): Task
    requires |data| < TWO32
  {
    var t1 := Advanced(t, |data|);
    if !sent then t1.(ioFinish := true)
    else
      var at := (t1.indexIO - |data|) % TWO64;
      var t2 := Sent(t1, Data(DataPayload(t.config.compressType, at, data)));
      ReadOn(t2)
  }

  // A write of n bytes is done.
  function OnWrite(t: Task, n: nat): Task {
    var t1 := Advanced(t, n);
    if t1.indexIO >= t1.fileSize then t1.(closeNotify := true, ioFinish := true) else t1
  }

  function Without<T>(s: seq<T>, i: nat): seq<T>
    requires i < |s|
  {
    s[..i] + s[i + 1..]
  }

  function ReadDone(t: Task, i: nat, failed: bool, data: seq<Byte>, sent: bool): Task
    requires i < |t.pending.reading| && |data| < TWO32
  {
    var t1 := t.(pending := t.pending.(reading := Without(t.pending.reading, i)));
    EndOfIO(if t.ioFinish then t1 else if failed then Failed(t1) else OnRead(t1, data, sent))
  }

  function WriteDone(t: Task, i: nat, failed: bool): Task
    requires i < |t.pending.writing|
  {
    var t1 := t.(pending := t.pending.(writing := Without(t.pending.writing, i)));
    EndOfIO(if t.ioFinish then t1 else if failed then Failed(t1) else OnWrite(t1, |t.pending.writing[i].data|))
  }

  // OnFileOpen. The master learns size and times of its file and announces it, the slave asks for the data.
  function Opened(t: Task, failed: bool, stat: Stat): Task
    requires t.pending.opens > 0
  {
    var t1 := t.(refCount := t.refCount - 1, pending := t.pending.(opens := t.pending.opens - 1));
    if failed then t1.(over := true) else Announced(ResetCtx(t1), stat)
  }

  // The configuration of the next file; its times only if they are to be kept.
  function Described(t: Task, stat: Stat): TransferConfig {
    var times := if t.config.holdTimestamp then t.config.(atime := stat.atime, mtime := stat.mtime) else t.config;
    times.(fileSize := stat.size, optionalName := t.localName, path := t.remotePath)
  }

  function Announced(t: Task, stat: Stat): Task {
    if t.master then
      var config := Described(t, stat);
      Sent(t.(config := config, fileSize := stat.size), Check(EncodeConfig(config)))
    else
      Sent(t, Begin)
  }

  // ---- file.cpp -------------------------------------------------------------------------------

  function WhenTransferFinish(t: Task): Task {
    Sent(t.(fileCnt := (t.fileCnt + 1) % TWO32, dirSize := (t.dirSize + t.indexIO) % TWO64), Finish(1))
  }

  function Closed(t: Task): Task
    requires t.pending.closes > 0
  {
    var t1 := t.(pending := t.pending.(closes := t.pending.closes - 1));
    var t2 := if t.closeNotify then WhenTransferFinish(t1) else t1;
    t2.(refCount := t2.refCount - 1)
  }

  // The files to send: the last of the list is opened first, the others are queued.
  function WithFiles(t: Task, names: seq<Name>): Task
    requires names != []
  {
    var n := |names| - 1;
    t.(isDir := |names| > 1, localName := names[n], taskQueue := names[..n])
  }

  // SetMasterParameters and BeginTransfer, for the files to send and the path to send them to.
  function Begun(t: Task, config: TransferConfig, path: Name, names: seq<Name>): Task
    requires names != []
  {
    OpenFile(WithFiles(t.(config := config, remotePath := path), names).(master := true))
  }

  function SlaveCheck(t: Task, payload: seq<Byte>): Task {
    var config := ParseConfig(t.config, payload);
    OpenFile(t.(config := config, fileSize := config.fileSize, localName := config.optionalName, master := false))
  }

  function TransferNext(t: Task): Task
    requires t.taskQueue != []
  {
    var n := |t.taskQueue| - 1;
    OpenFile(t.(localName := t.taskQueue[n], taskQueue := t.taskQueue[..n]))
  }

  function OnFinish(t: Task, flag: Byte): Task {
    if flag != 0 then
      if t.isDir && |t.taskQueue| > 0 then TransferNext(t)
      else Sent(t.(ioFinish := true), Finish(flag - 1))
    else
      t.(over := true)
  }

  // HdcTransferBase::CommandDispatch, then HdcFile::CommandDispatch.
  function Dispatch(t: Task, c: Command): Task {
    match c
    case Begin => ReadFile(t, t.indexIO, CHUNK)
    case Data(payload) => RecvIOPayload(t, payload)
    case Check(payload) => SlaveCheck(t, payload)
    case Finish(flag) => OnFinish(t, flag)
  }

  // ---- what the payloads carry -----------------------------------------------------------------

  lemma NarrowKeepsIff(index: U64)
    ensures NarrowIndex(index) == index <==> index <= INT_MAX || index >= TWO64 - 0x8000_0000
  {
  }

  // A DATA command arrives as the write it was sent for.
  lemma DataArrives(t: Task, compressType: Byte, index: U64, data: seq<Byte>)
    requires |data| < TWO32 && index <= INT_MAX
    ensures RecvIOPayload(t, DataPayload(compressType, index, data)) == WriteFile(t, index, data)
  {
    hide ParsePayload, Prefix;
    var p := TransferPayload(NarrowIndex(index), compressType, |data|, |data|);
    var payload := DataPayload(compressType, index, data);
    assert payload[..PAYLOAD_PREFIX_RESERVE] == Prefix(p) && payload[PAYLOAD_PREFIX_RESERVE..] == data;
    PrefixComesBack(NoPayload(), p);
    assert data[..|data|] == data;
  }

  // Whatever prefix is sent: if it names two sizes, or more data than there is, nothing is written; else
  // that much of the data is, at the place it names.
  lemma PrefixDecides(t: Task, p: TransferPayload, data: seq<Byte>)
    ensures RecvIOPayload(t, Prefix(p) + data) ==
            if p.compressSize != p.uncompressSize || |data| < p.compressSize then t
            else WriteFile(t, p.index, data[..p.compressSize])
  {
    hide ParsePayload, Prefix, WriteFile;
    var payload := Prefix(p) + data;
    assert payload[..PAYLOAD_PREFIX_RESERVE] == Prefix(p) && payload[PAYLOAD_PREFIX_RESERVE..] == data;
    PrefixComesBack(NoPayload(), p);
  }

  // A CHECK command arrives as the configuration it was sent with, whatever the slave held.
  lemma CheckArrives(was: TransferConfig, c: TransferConfig)
    ensures ParseConfig(was, EncodeConfig(c)) == c
  {
    hide ParseConfig, EncodeConfig;
    TransferConfigComesBack(was, c, c, 0);
  }

  // Whoever receives a CHECK is a slave then, with the size and name that were sent, and one more file
  // to be opened.
  lemma CheckMakesSlave(t: Task, c: TransferConfig)
    ensures var d := SlaveCheck(t, EncodeConfig(c));
            && !d.master && d.config == c && d.fileSize == c.fileSize && d.localName == c.optionalName
            && d.pending == t.pending.(opens := t.pending.opens + 1) && d.refCount == t.refCount + 1
            && d.out == t.out && d.over == t.over
  {
    hide ParseConfig, EncodeConfig;
    CheckArrives(t.config, c);
  }
}

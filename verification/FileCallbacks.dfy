/** The transfer task as an object: the callbacks and commands that update its context in place. */
module FileCallbacks {
  import opened Bytes
  import opened SerialStructs
  import opened FileTask

  class HdcFile {
    var master: bool
    var isDir: bool
    var taskQueue: seq<Name>
    var localName: Name
    var remotePath: Name
    var transferConfig: TransferConfig
    var fileSize: U64
    var indexIO: U64
    var ioFinish: bool
    var closeNotify: bool
    var fileCnt: U32
    var dirSize: U64
    var refCount: int
    // requests given to the event loop
    var pending: Requests
    var sent: seq<Command>
    var finished: bool
    // history: closes ever requested, references taken for requests never made
    var closings: nat
    var leaked: nat

    function State(): Task
      reads this
    {
      Task(master, isDir, taskQueue, localName, remotePath, transferConfig, fileSize, indexIO, ioFinish, closeNotify, fileCnt, dirSize,
           refCount, pending, sent, finished, closings, leaked)
    }

    constructor ()
      ensures State() == NewTask()
    {
      master, isDir, taskQueue, localName, remotePath := false, false, [], [], [];
      transferConfig := NewTask().config;
      fileSize, indexIO, ioFinish, closeNotify, fileCnt, dirSize := 0, 0, false, false, 0, 0;
      refCount, pending, sent, finished, closings, leaked := 0, Requests(0, [], [], 0), [], false, 0, 0;
    }

    // The files found: the last is opened first, the others are queued.
    method TakeFiles(names: seq<Name>)
      requires names != []
      modifies `isDir, `localName, `taskQueue
      ensures State() == WithFiles(old(State()), names)
    {
      isDir, taskQueue := |names| > 1, names;
      localName, taskQueue := taskQueue[|names| - 1], taskQueue[..|names| - 1];
    }

    method SetMasterParameters(config: TransferConfig, path: Name, names: seq<Name>)
      requires names != []
      modifies `transferConfig, `remotePath, `isDir, `localName, `taskQueue
      ensures State() == WithFiles(old(State()).(config := config, remotePath := path), names)
    {
      hide WithFiles;
      transferConfig, remotePath := config, path;
      TakeFiles(names);
    }

    method BeginTransfer(config: TransferConfig, path: Name, names: seq<Name>)
      requires names != []
      modifies this
      ensures State() == Begun(old(State()), config, path, names)
    {
      hide OpenFile, WithFiles;
      SetMasterParameters(config, path, names);
      master := true;
      Open();
    }

    // SimpleFileIO. `bytes` are asked for, and on the slave side `data` is what is written, if given.
    method SimpleFileIO(index: U64, data: Option<seq<Byte>>, bytes: nat) returns (ret: int)
      requires data.Some? ==> |data.value| == bytes
      modifies this
      ensures State() == if data.None? then ReadFile(old(State()), index, bytes) else WriteFile(old(State()), index, data.value)
      ensures ret < 0 <==> old(ioFinish) || (!master && bytes > 0 && data.None?)
      ensures ret >= 0 ==> ret == bytes
    {
      if ioFinish {
        return -1;
      }
      refCount := refCount + 1;
      if master {
        pending := pending.(reading := pending.reading + [Read(index, bytes)]);
      } else {
        if bytes > 0 && data.None? {
          leaked := leaked + 1;
          return -1;
        }
        pending := pending.(writing := pending.writing + [Write(index, if data.Some? then data.value else [])]);
      }
      return bytes;
    }

    // SendIOPayload, uncompressed; `channel` says whether the session takes the command.
    method SendIOPayload(index: U64, data: seq<Byte>, channel: bool) returns (ret: bool)
      requires |data| < TWO32
      modifies this`sent
      ensures ret == channel
      ensures var was := old(State());
              State() == if channel then Sent(was, Data(DataPayload(was.config.compressType, index, data))) else was
    {
      var payloadHead := TransferPayload(NarrowIndex(index), transferConfig.compressType, |data|, |data|);
      if channel {
        sent := sent + [Data(Prefix(payloadHead) + data)];
      }
      ret := channel;
    }

    // The end of OnFileIO: close-step1 and the reference of the request itself.
    method FinishIO()
      modifies this
      ensures State() == EndOfIO(old(State()))
    {
      if ioFinish {
        refCount := refCount + 1;
        pending := pending.(closes := pending.closes + 1);
        closings := closings + 1;
      }
      refCount := refCount - 1;
    }

    method Fail()
      modifies `closeNotify, `ioFinish
      ensures State() == Failed(old(State()))
    {
      closeNotify := true;
      ioFinish := true;
    }

    // The data read is sent on, and the next read requested until the file is at its end.
    method PassOn(data: seq<Byte>, channel: bool)
      requires |data| < TWO32
      modifies this
      ensures State() == OnRead(old(State()), data, channel)
    {
      hide DataPayload, ReadOn, Sent;
      indexIO := (indexIO + |data|) % TWO64;
      assert State() == Advanced(old(State()), |data|);
      var ok := SendIOPayload((indexIO - |data|) % TWO64, data, channel);
      if ok {
        Continue();
      } else {
        ioFinish := true;
      }
    }

    method Continue()
      modifies this
      ensures State() == ReadOn(old(State()))
    {
      hide ReadFile;
      if indexIO < fileSize {
        var ret := SimpleFileIO(indexIO, None, CHUNK);
      } else {
        ioFinish := true;
      }
    }

    // OnFileIO for the read at place i; a negative result is a failure.
    method OnFileRead(i: nat, result: int, data: seq<Byte>, channel: bool)
      requires i < |pending.reading| && |data| < TWO32 && (result >= 0 ==> result == |data|)
      modifies this
      ensures State() == ReadDone(old(State()), i, result < 0, data, channel)
    {
      hide OnRead, Failed, EndOfIO;
      pending := pending.(reading := Without(pending.reading, i));
      if !ioFinish {
        if result < 0 {
          Fail();
        } else {
          PassOn(data, channel);
        }
      }
      FinishIO();
    }

    method OnFileWrite(i: nat, result: int)
      requires i < |pending.writing| && (result >= 0 ==> result == |pending.writing[i].data|)
      modifies this
      ensures State() == WriteDone(old(State()), i, result < 0)
    {
      hide OnWrite, Failed, EndOfIO;
      var n := |pending.writing[i].data|;
      pending := pending.(writing := Without(pending.writing, i));
      if !ioFinish {
        if result < 0 {
          Fail();
        } else {
          CountWritten(n);
        }
      }
      FinishIO();
    }

    method CountWritten(n: nat)
      modifies `indexIO, `closeNotify, `ioFinish
      ensures State() == OnWrite(old(State()), n)
    {
      indexIO := (indexIO + n) % TWO64;
      if indexIO >= fileSize {
        closeNotify := true;
        ioFinish := true;
      }
    }

    method ResetCtx()
      modifies `closeNotify, `indexIO, `ioFinish
      ensures State() == FileTask.ResetCtx(old(State()))
    {
      closeNotify, indexIO, ioFinish := false, 0, false;
    }

    // Size, names and times of the opened file go into the configuration the slave is sent.
    method CheckMaster(stat: Stat)
      modifies `transferConfig, `fileSize, `sent
      ensures transferConfig == Described(old(State()), stat)
      ensures fileSize == stat.size && sent == old(sent) + [Check(EncodeConfig(transferConfig))]
    {
      transferConfig := transferConfig.(fileSize := stat.size, optionalName := localName);
      if transferConfig.holdTimestamp {
        transferConfig := transferConfig.(atime := stat.atime, mtime := stat.mtime);
      }
      transferConfig := transferConfig.(path := remotePath);
      fileSize := transferConfig.fileSize;
      sent := sent + [Check(EncodeConfig(transferConfig))];
    }

    method OpenDone()
      requires pending.opens > 0
      modifies `refCount, `pending
      ensures State() == old(State()).(refCount := old(refCount) - 1, pending := old(pending).(opens := old(pending).opens - 1))
    {
      refCount := refCount - 1;
      pending := pending.(opens := pending.opens - 1);
    }

    method OnFileOpen(failed: bool, stat: Stat)
      requires pending.opens > 0
      modifies this
      ensures State() == Opened(old(State()), failed, stat)
    {
      hide Announced, FileTask.ResetCtx;
      OpenDone();
      if failed {
        finished := true;
      } else {
        ResetCtx();
        Announce(stat);
      }
    }

    method Announce(stat: Stat)
      modifies `transferConfig, `fileSize, `sent
      ensures State() == Announced(old(State()), stat)
    {
      hide EncodeConfig;
      if master {
        CheckMaster(stat);
      } else {
        sent := sent + [Begin];
      }
    }

    method WhenTransferFinish()
      modifies `fileCnt, `dirSize, `sent
      ensures State() == FileTask.WhenTransferFinish(old(State()))
    {
      fileCnt := (fileCnt + 1) % TWO32;
      dirSize := (dirSize + indexIO) % TWO64;
      sent := sent + [Finish(1)];
    }

    method OnFileClose()
      requires pending.closes > 0
      modifies this
      ensures State() == Closed(old(State()))
    {
      hide FileTask.WhenTransferFinish;
      pending := pending.(closes := pending.closes - 1);
      if closeNotify {
        WhenTransferFinish();
      }
      refCount := refCount - 1;
    }

    // One more request to open a file.
    method Open()
      modifies `refCount, `pending
      ensures State() == OpenFile(old(State()))
    {
      refCount := refCount + 1;
      pending := pending.(opens := pending.opens + 1);
    }

    method RecvPayload(payload: seq<Byte>)
      modifies this
      ensures State() == RecvIOPayload(old(State()), payload)
    {
      hide ParsePayload, WriteFile;
      if |payload| < PAYLOAD_PREFIX_RESERVE {
        return;
      }
      var pld := ParsePayload(NoPayload(), payload[..PAYLOAD_PREFIX_RESERVE]);
      var data := payload[PAYLOAD_PREFIX_RESERVE..];
      if pld.compressSize == pld.uncompressSize && pld.compressSize <= |data| {
        var ret := SimpleFileIO(pld.index, Some(data[..pld.compressSize]), pld.compressSize);
      }
    }

    method CheckSlave(payload: seq<Byte>)
      modifies this
      ensures State() == SlaveCheck(old(State()), payload)
    {
      hide ParseConfig, OpenFile;
      transferConfig := ParseConfig(transferConfig, payload);
      fileSize, localName, master := transferConfig.fileSize, transferConfig.optionalName, false;
      Open();
    }

    method NextFile()
      requires taskQueue != []
      modifies this
      ensures State() == TransferNext(old(State()))
    {
      var n := |taskQueue| - 1;
      localName := taskQueue[n];
      taskQueue := taskQueue[..n];
      Open();
    }

    method CommandDispatch(command: Command)
      modifies this
      ensures State() == Dispatch(old(State()), command)
    {
      hide RecvIOPayload, SlaveCheck, TransferNext, ReadFile;
      match command {
        case Begin => var ret := SimpleFileIO(indexIO, None, CHUNK);
        case Data(payload) => RecvPayload(payload);
        case Check(payload) => CheckSlave(payload);
        case Finish(flag) =>
          if flag == 0 {
            finished := true;
          } else if isDir && |taskQueue| > 0 {
            NextFile();
          } else {
            ioFinish := true;
            sent := sent + [Finish(flag - 1)];
          }
      }
    }
  }
}

# hdc transport: a verified model

hdc connects a host to a device over USB, TCP or a serial line. This project models how its data travels
over the serial line and what is built on top of it, and proves what that code is for. `dafny verify dfyconfig.toml`
checks the whole project.

The layers, from the wire upwards:

- **Packages** (`UartHead`, `UartSegment`, `UartReceive`, `UartParser`, `UartChecksum`, `UartAnswers`, `UartReadLoop`,
  `UartTimeouts`). A buffer is cut into packages of at most 4096 bytes with a 24-byte head and two checksums; the read
  threads put the byte stream together again, act on it and answer it, also when the line falls silent.
- **The reliable link** (`UartQueue`, `UartScheduler`, `UartLink`, `Arq`, `ArqFlow`, `ArqSafety`, `ArqProgress`,
  `ArqSettle`, `ArqGap`). Queue, slots, retries, acknowledgements and duplicate suppression; two ends joined by a line
  that may lose packages: what is dispatched, when it gets on and is answered, and what giving up costs.
- **Serializer** (`SerialWire`, `SerialSchema`, `SerialWriter`, `SerialRead`, `SerialReader`, `SerialRoundTrip`,
  `SerialFresh`, `SerialBroken`, `SerialMap`, `SerialStructs`). The wire format is that of Protocol Buffers (sections "Base 128
  Varints", "Signed Integers" and "Packed Repeated Fields" of its encoding specification), as the code has it:
  unknown fields are not skipped, and a negative `int32_t` takes 5 bytes.
- **Sessions and channels** (`Framing`, `Session`, `SessionWidth`, `SessionBuffer`, `Channel`). Packets recovered from a
  byte stream that arrives in arbitrary pieces, in one buffer compacted in place.
- **The whole serial stack** (`SerialStack`, `StackSafety`, `StackProgress`): from `Send` at one end to `FetchCommand` at
  the other.
- **Formats** (`WireLayout`): heads, packets, prefixes and records byte by byte.
- **File transfer** (`FileTask`, `FileCallbacks`, `FileRefs`, `FileTransfer`, `FileSafety`, `FileRuns`, `FileTold`,
  `FileObjects`): CHECK, BEGIN, DATA and FINISH, positioned writes in flight, directories.
- **Command lines** (`Tokenizer`, `CommandLine`): quoting and joining on the host, splitting on the other side.

Code that updates state is a class or a loop (`HdcUart`, `HdcSession`, `HdcChannel`, `HdcFile`, `Reader`, `Writer`,
the read threads, the tokenizer). Each method is proved against a function on values, and the theorems are about these
functions and the state machines made of them.

Seven results say where the code does not do what one might expect, each with the exact condition under which it does:

- When the retries of a package are used up its session's queue is cleared at once, while the session is freed later.
  A `SendUARTData` call that goes on in between hands out a package that the receiver takes for the next in order. That
  is the daemon's end: the host's `OnTransferError` closes its port (src/host/host_uart.cpp:649), so nothing follows
  there. In any state, asking for a package keeps the order exactly if all earlier ones were dispatched (`ArqGap`).
- A task that stops being the master, or that is a slave and is sent BEGIN, counts a request that it never makes, and
  is then never ready for release (`FileRefs`).
- `ReadMap` does not return when a record announces more bytes than there are (`SerialMap`).
- An argument with a space and more than 15357 characters is left out of the joined command line, because the formatting
  buffer has 15360 bytes (`Tokenizer`, `CommandLine`).
- A timeout drops a cut package only if none of its bytes came to the `ReadUartDev` call that the timeout ends; otherwise
  what comes next is taken for the missing bytes. Two timeouts always drop it (`UartTimeouts`).
- A package whose acknowledgement is lost on its last chance is given up although it was dispatched; the sender is
  answered by a run without loss exactly as long as an answer, the package or a chance is left (`ArqSettle`, `ArqGap`).
- `OnRead` adds the two sizes of a head in 32 bits: sizes that pass 2^32 together are read as a small length
  (`SessionWidth`).

The comment at src/common/uart.cpp:579-585 says that the receiver answers a damaged package with a NAK. The code sends
only ACK and FREE (src/common/uart.cpp:801-815); the model follows the code, and a NAK arrives only as an event of the
environment.

## Model

| member | source | states |
|---|---|---|
| UartHead.HeadRoundTrip | src/common/uart.h:44-55 | the packed little-endian head decodes to the fields it was made of, whatever follows it |
| UartHead.UpdateCheckSum | src/common/uart.h:101-112 | in place, writes the data sum (if there is data) and then the head sum over the first 20 bytes, and nothing else |
| UartHead.UpdatedValidates | src/common/uart.h:101-135 | a package passed through UpdateCheckSum passes both checks, and only the two sum fields changed |
| UartHead.SumsNeverWrap | src/common/uart.h:101-135 | the 32-bit sums are the true sums for anything that fits the 4096-byte device buffer |
| UartHead.OneByteMovesSum | src/common/uart.h:113-135 | replacing one byte changes the 32-bit sum of a string of any length |
| UartHead.CheckedIsUpdateCheckSum | src/common/uart.h:101-112 | the checksums computed on decoded packages are those computed on their bytes |
| UartHead.KeyInjective | src/common/uart.h:56-65 | two queue keys are the same string exactly if response flag, session and index agree |
| WireLayout.HeadBytes | src/common/uart.h:44-55 | the 24 bytes of the packed head one by one, every number with its low byte first |
| UartChecksum.OneByteReplaced | src/common/uart.cpp:758-818 | any well-formed package, RESET and FREE included, with any one byte replaced by another value (flag, head, sums or data) empties the read buffer without dispatch and without an acknowledgement; what is left is the reset or free asked for by an intact head over damaged data |
| UartChecksum.CheckedPackageIsTaken | src/common/uart.cpp:758-818 | a package the sender sent out is accepted by the receiver and has its effect once |
| UartAnswers.DataIsAcknowledged | src/common/uart.cpp:801-826 | after a data package has been parsed, new or a duplicate, a head-only package with the ACK option and its session and index waits in the queue; whatever waited there is still in front of it, and nothing else is new |
| UartAnswers.ParserKeepsHonest | src/common/uart.cpp:388-459 | whatever bytes arrive, every queued entry stays under the key of its package and every queued response stays an ACK |
| UartAnswers.RequestKeepsHonest | src/common/uart.cpp:595-620 | nor does a request of a package that is no response change that |
| UartAnswers.AcksGoOut | src/common/uart.cpp:650-690 | a pass without timeouts sends every acknowledgement that waits |
| UartAnswers.NakPutsBack | src/common/uart.cpp:636-646 | a NAK makes exactly the package it names wait to be sent, and changes nothing else |
| UartAnswers.AckTakesOut | src/common/uart.cpp:630-635 | an ACK takes exactly the package it names out of the queue and frees its session's slot; one that names none changes nothing |
| UartAnswers.FreeClears | src/common/uart.cpp:793-814 | a FREE package leaves nothing of its session queued but its own acknowledgement, frees the slot if data was queued, and leaves other sessions alone |
| UartAnswers.ResetIsReported | src/common/uart.cpp:785-791 | a RESET package is reported, empties the buffer, and has no other effect |
| UartLink.HdcUart.RequestSendPackage | src/common/uart.cpp:595-620 | the queue gets the package with its checksums, unless its key is queued already, and the session its slot if asked for |
| UartLink.HdcUart.ProcessResponsePackage | src/common/uart.cpp:622-648 | an ACK erases the package of that key and frees its session's slot; a NAK puts it back to waiting |
| UartLink.HdcUart.ResponseUartTrans | src/common/uart.cpp:820-826 | queues a head-only package that waits for no slot |
| UartLink.HdcUart.ClearUARTOutMap | src/common/uart.cpp:726-746 | removes every package of the session, and its slot if one of them held data |
| UartLink.HdcUart.SendPkgInUARTOutMap | src/common/uart.cpp:650-724 | the loop over the queue writes to the device and leaves in the queue what one walk does, with erasure in the middle, the break on a timeout and the give-up |
| UartLink.HdcUart.ValidateUartPacket | src/common/uart.cpp:758-818 | the checks in order, the reset and free options, and the response or acknowledgement once the data is there |
| UartLink.HdcUart.PackageProcess | src/common/uart.cpp:388-459 | the erasing loop leaves in the buffer, returns and dispatches what the recursive parser does |
| UartScheduler.OutstandingIsOldest | src/common/uart.cpp:595-746 | in every reachable queue a package waiting for its response is the oldest non-response package of its session, so at most one a session is outstanding |
| UartScheduler.WritesFollowQueueOrder | src/common/uart.cpp:650-724 | every data package a pass writes is the oldest of its session, so first transmissions follow the queue, packages that bypass the slots included |
| UartScheduler.PassSendsDue | src/common/uart.cpp:650-724 | a pass writes exactly the responses and the oldest data packages that wait, in queue order, up to the first that has timed out; it ends there with what is behind untouched, and gives the session up exactly if no retry is left |
| UartScheduler.RetryAccounting | src/common/uart.cpp:632-718 | for every queued data package: transmissions = (4 - retryChance) + NAKs received while waiting + 1 if it waits; without NAKs at most 5 |
| UartScheduler.GiveUpAfterFive | src/common/uart.cpp:691-718 | a pass gives a session up only over a package sent 5 times (plus NAKs), and then none of its packages is left |
| UartScheduler.QueueIdentity | src/common/uart.cpp:595-642 | in every reachable queue keys are pairwise distinct, and each is that of (response, session, index) of its package |
| UartScheduler.SlotsAreSessionsWithData | src/common/uart.h:322-336 | when data packages go through the slots and nothing else does, a session holds a slot exactly if it has a data package queued, and never two |
| UartScheduler.RunKeeps | src/common/uart.cpp:595-746 | enqueueing, ACK, NAK, clearing, timeouts and passes in any order keep the queue's invariant |
| UartParser.ParserAsksForMore | src/common/uart.cpp:388-459 | on any bytes the parser asks for nothing with at most one byte left, or for more than it holds and at most 4096 |
| UartParser.ParserLeavesSuffix | src/common/uart.cpp:388-459 | on any bytes what stays in the buffer is its end |
| UartParser.CompletePackage | src/common/uart.cpp:388-459 | a complete package in front is consumed whole and has its effect exactly once |
| UartParser.PartialPackage | src/common/uart.cpp:443-459 | an incomplete package stays as it is, with no dispatch and no acknowledgement |
| UartParser.AnyCutOfTheStream | src/common/uart.cpp:388-459 | any stream of well-formed packages, stopped anywhere and read in any pieces, has the effect of the packages complete by then, in order; a proper prefix of the next is left |
| UartParser.WhatIsExpected | src/common/uart.cpp:388-459 | behind whole packages the parser asks for nothing with at most one byte left, for a head until it has one, then for the whole package |
| UartReadLoop.ReadUartDev | src/common/uart.cpp:172-279 | reads on until the expected size is buffered, a timeout while something is expected, or a failure; stays below 8192 bytes if it starts below 4096 |
| UartReadLoop.DeamonReadThread | src/daemon/daemon_uart.cpp:241-280 | for any sequence of device rounds: the state the recursive loop gives; below 8192 bytes before the parser and 4096 after it; never left because the buffer is full |
| UartReadLoop.UartReadThread | src/host/host_uart.cpp:72-109 | the same for the host's loop, which drops the queue and goes on after a failed read |
| UartReadLoop.TimelyReadsLoseNothing | src/daemon/daemon_uart.cpp:247-270 | however the device cuts a stream of packages and however long each read waits, the read thread has the effect of the complete packages, in order, each once |
| UartTimeouts.ThreadIs | src/daemon/daemon_uart.cpp:241-280 | the read thread is its device rounds one by one, for any mix of bytes and timeouts; a failed round ends it |
| UartTimeouts.OnlyCutPackagesAreLost | src/daemon/daemon_uart.cpp:247-270 | over any number of bursts in any pieces, the line silent for two timeouts behind each: a package cut behind its head is dropped, alone, and every complete package has its effect, in order, each once |
| UartTimeouts.OneTimeout | src/common/uart.cpp:240-258 | one timeout between two streams, wherever the first is cut: with nothing expected the streams are read as if there had been none; with something expected and nothing arrived since, the cut package is dropped and the complete packages of both have their effect |
| UartTimeouts.TwoDrop | src/common/uart.cpp:255-258 | with bytes arrived since, the first timeout only ends the call, and the second drops the cut package |
| UartTimeouts.CutInOneRound | src/common/uart.cpp:255-258 | a package cut behind its head in one round, a timeout, and another package: that one has its effect |
| UartTimeouts.CutInTwoRounds | src/common/uart.cpp:255-258 | the same cut in two rounds: the other package is taken for the missing bytes, and both are lost |
| UartTimeouts.HostGoesOn | src/host/host_uart.cpp:84-87 | after a failed read the host's thread goes on with nothing of its session queued and its slot free |
| UartSegment.SendUARTData | src/common/uart.cpp:828-877 | the loop over one reused send buffer hands out the packages of the recursive cut, ends with the offset at the length, and advances packageIndex by their number |
| UartSegment.PayloadsJoin | src/common/uart.cpp:838-874 | the payloads of the packages concatenate to the buffer |
| UartSegment.PackageCount | src/common/uart.cpp:838-874 | there are max(1, ceil(n / 4072)) packages |
| UartSegment.PackageShape | src/common/uart.cpp:838-874 | the head of every package cut: magic word, session, consecutive index, size of its payload, option 1 (TAIL) on the last and 0 on the others; all but the last are full |
| UartSegment.SegmentIsPlain | src/common/uart.cpp:838-874 | every package cut is one the peer's parser accepts |
| ArqFlow.TakeFlow | src/common/uart.cpp:407-442 | receiving the first data package on the line keeps the invariant of the direction: new or a duplicate, although only the last index is remembered |
| ArqFlow.AckFlow | src/common/uart.cpp:622-648 | an acknowledgement that erases a package names one the receiver has taken |
| ArqSafety.StepKeeps | src/common/uart.cpp:388-826 | every step of either end, or loss on the line, keeps the invariant of the link |
| ArqSafety.DeliveredIsPrefix | src/common/uart.cpp:388-826 | over every run in which nothing is requested of a session given up while the peer lacks a payload: what each end dispatched is a prefix of the payloads the other handed to the link, each once |
| ArqSafety.ErasedMeansAccepted | src/common/uart.cpp:630-635 | in such a run no data package is left in the queue of a live session only if the receiver has dispatched every payload |
| ArqProgress.LinkProgresses | src/common/uart.cpp:650-724 | from every state of the link in which the package requested last has arrived, is on the line, or can be sent or sent again: a run without loss, of at most 2 steps plus one for each package on the line and queued, after which everything requested has been dispatched |
| ArqProgress.ChancesLeft | src/common/uart.cpp:691-718 | a session not given up is in such a state unless a data package has waited through its last chance |
| ArqProgress.ProgressIff | src/common/uart.cpp:650-724 | some run in which nothing more is lost or asked for dispatches everything requested exactly in these states |
| ArqSettle.SenderSettles | src/common/uart.cpp:622-724 | from every state of a live session in which an answer is under way, or the package it answers is or can be sent: a run without loss, of known length, after which nothing is queued, the slot is free, the session lives and everything requested is dispatched |
| ArqSettle.SettlesIff | src/common/uart.cpp:622-724 | some run without loss ends so exactly from these states |
| ArqSettle.AllArrive | src/common/uart.cpp:595-724 | from every such state, any list of payloads is requested one after the other and all dispatched, by a run without loss |
| ArqSettle.BufferArrives | src/common/uart.cpp:828-877 | and with the packages SendUARTData cuts a buffer into, what the peer dispatches joins to the buffer |
| ArqGap.DeliveredWithoutHope | src/common/uart.cpp:706-716 | from the start: the package arrives, its acknowledgement and every retry are lost; all is dispatched, the session not given up, and no run without loss can save it |
| ArqGap.RequestIsSafeIff | src/common/uart.cpp:706-716 | in every state of the link, whatever is on the line: asking for any next package leaves a prefix dispatched in every guarded continuation exactly if the peer has dispatched all that was requested before |
| ArqGap.GapIsUnsafe | src/daemon/daemon_uart.cpp:190-198 | with a payload still missing, any other payload asked for next (which only the daemon's end still sends) can overtake it: lose what is on the line, then deliver |
| ArqGap.OrderLostAfterGiveUp | src/common/uart.cpp:706-716 | from the start: a run that loses one package five times and goes on, after which the receiver has dispatched the second payload only |
| SerialWire.WriteVarint32 | src/common/serial_struct_define.h:280-293 | the 5-byte loop writes the base-128 digits of the number |
| SerialWire.WriteVarint64 | src/common/serial_struct_define.h:295-308 | the 10-byte loop writes the base-128 digits of the number |
| SerialWire.ReadBack32 | src/common/serial_struct_define.h:280-332 | reading a written 32-bit varint gives the number and leaves what follows |
| SerialWire.ReadBack64 | src/common/serial_struct_define.h:295-348 | the same for 64 bits |
| SerialWire.ScalarRoundTrip | src/common/serial_struct_define.h:213-502 | every number of every kind (plain, zigzag, fixed, bool, 8 and 16 bit) reads back, signs included |
| SerialWriter.Writer.WriteField | src/common/serial_struct_define.h:541-547 | any writer, collecting sizes or bytes, gets exactly the encoding of the member |
| SerialWriter.Writer.WriteRepeated | src/common/serial_struct_define.h:555-577 | a packed vector: the length written is the one the size collector counted, and is the length of what follows |
| SerialWriter.Writer.WriteSub | src/common/serial_struct_define.h:713-727 | a nested message: left out if the collector counted nothing, else with its exact length, at any depth |
| SerialWriter.Writer.WriteMessage | src/common/serial_struct_define.h:549-553 | the fields in order of declaration |
| SerialWriter.SerializeToString | src/common/serial_struct_define.h:1298-1304 | the string is the encoding of the message |
| SerialReader.Reader.Read | src/common/serial_struct_define.h:251-273 | through any stack of limited readers: as many bytes as asked for and reachable, every limit reduced by what was read |
| SerialReader.Reader.ReadVarint | src/common/serial_struct_define.h:317-348 | the loop reads what the recursive reader reads, failing ends included |
| SerialReader.Reader.ParsePacked | src/common/serial_struct_define.h:630-663 | a packed vector through its limited reader, until the limit is used up or a number fails |
| SerialReader.Reader.ParseMessage | src/common/serial_struct_define.h:729-738 | a nested message through its limited reader |
| SerialReader.Reader.ReadMessage | src/common/serial_struct_define.h:700-710 | the loop over tags and fields; fields with the tag read in order, unknown tags read nothing; it ends on any bytes |
| SerialReader.ParseFromString | src/common/serial_struct_define.h:1306-1310 | the object reader computes the recursive parse |
| SerialRoundTrip.PackedReads | src/common/serial_struct_define.h:555-663 | a packed vector is appended to what the target held and its limited reader is consumed exactly |
| SerialRoundTrip.SubReads | src/common/serial_struct_define.h:713-739 | a nested message is merged into the target and its limited reader is consumed exactly |
| SerialRoundTrip.MessageReads | src/common/serial_struct_define.h:541-739 | parsing an encoding merges it, member by member, into whatever the target held, and goes on with what follows |
| SerialFresh.PaddingChangesNothing | src/common/serial_struct_define.h:700-710 | zero bytes behind an encoding change nothing |
| SerialFresh.SolidRoundTrip | src/common/serial_struct_define.h:1298-1310 | without vectors and fixed64 members the value comes back whatever the target held, padded or not |
| SerialFresh.SecondOfTwo | src/common/serial_struct_define.h:1298-1310 | two encodings in a row merge one after the other; for such schemas the second counts |
| SerialFresh.FreshRoundTripIff | src/common/serial_struct_define.h:555-739 | any schema, into a fresh target: the value comes back exactly if no vector in it, at any depth, has an element that encodes to nothing |
| SerialBroken.ForeignIsNotSkipped | src/common/serial_struct_define.h:700-710 | what follows the tag of a record that no member takes is read as the next record |
| SerialBroken.MistypedIsNotSkipped | src/common/serial_struct_define.h:700-710 | the same for a member's record of another wire type, which leaves the member alone |
| SerialBroken.SharedTag | src/common/serial_struct_define.h:691-710 | members that share a tag read one behind the other |
| SerialBroken.CutText | src/common/serial_struct_define.h:1116-1130 | a string cut short has the length announced, the bytes that are there in front, and behind them what stood there or zeros |
| SerialBroken.CutPacked | src/common/serial_struct_define.h:630-663 | of a packed vector cut short the numbers in front of the cut one are kept |
| SerialBroken.CutElement | src/common/serial_struct_define.h:630-663 | a string cut short is no element of its vector |
| SerialBroken.CutMessage | src/common/serial_struct_define.h:729-738 | a nested message cut short keeps what the bytes that are there say |
| SerialBroken.CutUint32 | src/common/serial_struct_define.h:317-332 | a uint32_t cut short holds its low bits, seven for each byte there |
| SerialMap.WriteMap | src/common/serial_struct_define.h:579-599 | each record's length is the one counted by a first pass over key and value |
| SerialMap.MapReads | src/common/serial_struct_define.h:579-628 | reading a written map inserts its entries in order; a key the target has keeps its value |
| SerialMap.FreshEntries | src/common/serial_struct_define.h:608-628 | into an empty map exactly the entries written come back |
| SerialMap.InsertedMeans | src/common/serial_struct_define.h:615-624 | a key the target has keeps its value, a new one gets that of its first entry, and no other key appears |
| SerialMap.NeverEnds | src/common/serial_struct_define.h:615-624 | with fewer bytes than its limit allows the loop has not ended after any number of rounds, and once the bytes are gone a round changes nothing |
| SerialMap.EndsIff | src/common/serial_struct_define.h:615-624 | the loop ends after some number of rounds exactly if all the bytes its limit allows are there |
| SerialMap.ReturnsIffComplete | src/common/serial_struct_define.h:608-628 | ReadMap returns exactly if the record has another wire type, no length, or all the bytes its length announces |
| SerialMap.TruncatedRecord | src/common/serial_struct_define.h:608-628 | a record that announces one byte and has none: the loop stays where it is |
| SerialStructs.TransferConfigComesBack | src/common/serial_struct.h:37-55 | TransferConfig: read back field by field over any target, with zero padding, and as second of two |
| SerialStructs.TransferPayloadComesBack | src/common/serial_struct.h:57-65 | TransferPayload: the same |
| SerialStructs.SessionHandShakeComesBack | src/common/serial_struct.h:67-76 | SessionHandShake, the buffer with token and signature included: the same |
| SerialStructs.PayloadProtectComesBack | src/common/serial_struct.h:78-86 | PayloadProtect: the same |
| SerialStructs.ConfigOnWire | src/common/serial_struct.h:37-55 | the encoding of a TransferConfig, record by record with its tag |
| SerialStructs.PayloadOnWire | src/common/serial_struct.h:57-65 | the same for TransferPayload |
| SerialStructs.HandShakeOnWire | src/common/serial_struct.h:67-76 | the same for SessionHandShake: banner, authType, sessionId, connectKey, buf under the tags 1 to 5 |
| SerialStructs.ProtectOnWire | src/common/serial_struct.h:78-86 | the same for PayloadProtect |
| WireLayout.VarintExamples | src/common/serial_struct_define.h:213-308 | the varint and zigzag examples of the Protocol Buffers encoding guide |
| WireLayout.FieldExamples | src/common/serial_struct_define.h:541-577 | its examples of a number, a string and a packed field |
| SerialStructs.PrefixHasRoom | src/common/transfer.cpp:169-173 | the encoded TransferPayload always fits the 64-byte prefix, so the size check never refuses |
| SerialStructs.PrefixComesBack | src/common/transfer.cpp:439-442 | parsing the zero-padded 64-byte prefix gives back what SendIOPayload put there |
| Framing.AnyPieces | src/common/session.cpp:896-933 | for any reader that takes a whole message and waits for a cut one: any pieces have the effect of one big read, and exactly the unfinished message is left |
| Session.WholePacket | src/common/session.cpp:788-894 | a packet made by Send, with anything behind it, is dispatched as (channelId, command, data) and consumed exactly |
| Session.CutPacket | src/common/session.cpp:870-894 | any proper prefix of a packet stays in the buffer |
| Session.AnyCutOfTheSession | src/common/session.cpp:788-933 | packets read in any pieces are dispatched in order, each once, the buffer holds the undispatched rest, and there is room to read on if each packet fits 153600 bytes |
| Session.RefusedIff | src/common/session.cpp:838-894 | exactly when OnRead refuses a buffer, and when it waits for more |
| Session.BadPacketEnds | src/common/session.cpp:896-933 | packets in front of a refused one are dispatched, and the rest of the buffer is dropped |
| WireLayout.PacketBytes | src/common/session.cpp:788-836 | a packet byte by byte: magic word, version, both sizes with the high byte first, channel, command, checksum 0 and code 9 as records, data |
| SessionWidth.WidthsAgreeIff | src/common/session.cpp:838-894 | on any bytes, with the sizes added in 32 bits and read as ints: the code answers as the reader on unbounded numbers does exactly if the sizes do not pass 2^32 together or the packet is refused anyway |
| SessionWidth.DataSizeIsWhatIsLeft | src/common/session.cpp:842-860 | the data size handed on is what the bytes taken leave for it, negative exactly if the sizes reach 2^32 together |
| SessionWidth.SentIsRead | src/common/session.cpp:788-894 | for the head of anything Send made the two agree |
| SessionWidth.WrappedSizesWait | src/common/session.cpp:870-882 | a head with sizes 3 and 2^32 - 1: the code waits for more, the unbounded reader refuses |
| SessionBuffer.Send | src/common/session.cpp:788-836 | the allocated buffer is filled with head, serialized protection and data |
| SessionBuffer.HdcSession.FetchIOBuf | src/common/session.cpp:896-933 | in the one buffer: dispatches what the recursive reader does, moves the rest to the front, drops everything on an error, and returns the bytes consumed or the error |
| SessionBuffer.HdcSession.Compact | src/common/session.cpp:924-931 | the rest is moved to the front over itself and the bytes behind it are cleared |
| SessionBuffer.ReadStream | src/common/session.cpp:896-942 | reads of any wanted size, limited by the free room, always get on, and the session's log and buffer split the stream at what was taken |
| Channel.SendChannel | src/common/channel.cpp:261-285 | a non-empty buffer goes out behind its big-endian length |
| Channel.AnyCutOfTheChannel | src/common/channel.cpp:110-172 | the same stream refinement for the 4-byte length prefix |
| Channel.ArrivesIffNoneEmpty | src/common/channel.cpp:136-142 | a stream of prefixed buffers arrives as sent exactly if none of them is empty |
| Channel.BadLengthEnds | src/common/channel.cpp:134-142 | buffers in front of a length that is 0 or above 2^31 - 1 are handed on, then the channel is to be freed |
| WireLayout.ChannelBytes | src/common/channel.cpp:261-285 | the prefix byte by byte |
| Channel.HdcChannel.ReadStream | src/common/channel.cpp:110-172 | the in-place loop computes the recursive reader; needExit exactly on a read error other than UV_ENOBUFS or a length that is not a positive int |
| StackSafety.StepIsGood | src/common/session.cpp:788-933 | every step of the stack, from Send to FetchCommand, keeps its invariant |
| StackSafety.DispatchedIsPrefixOfSent | src/common/session.cpp:788-933 | over every run on a lossy line read in arbitrary pieces, in which nothing is requested of a session given up while the peer lacks a payload: the (channelId, command, data) dispatched at each end are a prefix of those sent at the other, no session refuses its stream, and its buffer keeps room |
| StackSafety.NothingOnTheWayMeansAllDispatched | src/common/uart.cpp:828-877 | when nothing waits, nothing is queued, the session lives and the pipe is read, everything sent has been dispatched |
| StackProgress.AllMessagesArrive | src/common/session.cpp:788-933 | from the beginning and every moment of rest, any list of messages whose packets fit the read buffer is sent and dispatched completely by some run without loss: packages cut, sent, acknowledged, read, and fetched by the session |
| StackProgress.BeginsAtRest | src/common/session.cpp:788-933 | two new ends are at rest |
| FileTask.NarrowKeepsIff | src/common/transfer.cpp:135-147 | an index survives the `int` parameter exactly below 2^31 (or if it is a sign-extended one) |
| FileTask.DataArrives | src/common/transfer.cpp:135-182 | a DATA command arrives as the positioned write it was sent for |
| FileTask.PrefixDecides | src/common/transfer.cpp:434-474 | whatever prefix a DATA command has: with two different sizes or more announced than there is nothing is written, else that much of the data at the place it names |
| FileTask.CheckArrives | src/common/file.cpp:131-177 | a CHECK command arrives as the configuration it was sent with, whatever the slave held |
| FileTask.CheckMakesSlave | src/common/file.cpp:161-197 | whoever receives a CHECK is a slave then, with the size and name sent and one more file to open |
| WireLayout.DataBytes | src/common/transfer.cpp:135-182 | a DATA command byte by byte: 64 bytes of prefix with index, compression and size twice, then the data |
| FileCallbacks.HdcFile.SimpleFileIO | src/common/transfer.cpp:56-104 | requests the read or the write and counts it, or refuses; the one refusal that has counted already |
| FileCallbacks.HdcFile.OnFileRead | src/common/transfer.cpp:184-249 | a completed read: sends the data on and reads on, or ends and closes |
| FileCallbacks.HdcFile.OnFileWrite | src/common/transfer.cpp:184-249 | a completed write: finishes and closes once the sum reaches the size |
| FileCallbacks.HdcFile.BeginTransfer | src/common/file.cpp:33-126 | the last file found is to be opened, the others are queued |
| FileCallbacks.HdcFile.OnFileOpen | src/common/transfer.cpp:251-288 | the master announces size, name, remote path and (if they are to be kept) times, the slave asks for the data, a failure ends the task |
| FileCallbacks.HdcFile.OnFileClose | src/common/transfer.cpp:106-118 | counts the file and sends FINISH(1) if it is to be notified |
| FileCallbacks.HdcFile.CommandDispatch | src/common/file.cpp:220-257 | BEGIN, DATA, CHECK and FINISH, the next file from the back of the queue |
| FileRefs.RefCountIsPending | src/common/transfer.cpp:56-118 | whatever callbacks fire with whatever results and whatever commands arrive: refCount is the number of pending requests plus the stray reads |
| FileRefs.ReadyForReleaseIff | src/common/task.cpp:40-43 | ready for release exactly if no callback can fire and no read went astray |
| FileRefs.BegunSlaveIsNeverReleased | src/common/transfer.cpp:56-104 | a new task that is sent BEGIN counts one request with none pending, and is not ready for release after any callbacks and commands that follow |
| FileRefs.FailureCloses | src/common/transfer.cpp:197-247 | a failed read or write finishes the transfer, will notify, and asks once for the file to be closed |
| FileRefs.NothingAfterFailure | src/common/transfer.cpp:56-104 | until another file is opened no read or write is asked for any more, whatever completes or arrives |
| FileRefs.UnsentEnds | src/common/transfer.cpp:204-219 | data read that cannot be sent finishes the transfer without a notice and closes the file |
| FileRefs.FailedOpenEnds | src/common/transfer.cpp:251-266 | a file that cannot be opened ends the task and asks for nothing |
| FileRefs.NotifiedClose | src/common/transfer.cpp:106-118 | a close tells the other side, once, and counts the file exactly if it is to notify |
| FileSafety.PieceWritten | src/common/transfer.cpp:78-86 | a positioned write completing in any order keeps every byte sent accounted for, in the file, in a write under way or on its way |
| FileSafety.AllWritten | src/common/transfer.cpp:221-235 | once the sums reach the size the target is the file byte for byte and nothing is under way |
| FileSafety.SlaveWrites | src/common/transfer.cpp:184-249 | a completed write leaves the transfer moving, or closing exactly at the last byte |
| FileSafety.MasterGoesOn | src/common/file.cpp:240-252 | FINISH(1) starts the next file from the back of the queue, or is answered with FINISH(0) when none is left |
| FileRuns.EveryRunEnds | src/common/file.cpp:203-257 | whatever the order of completions and commands: a run has a bound known from the sizes (files left, bytes left), and until FINISH(0) is received something can happen |
| FileRuns.EveryRunCopiesEveryFile | src/common/file.cpp:137-257 | at every moment the files counted are those at the back of the list, copied byte for byte, with dirSize their sum; at the end that is all of them, each opened file closed once on either side |
| FileRuns.FinishesAtTheLastByte | src/common/transfer.cpp:221-235 | the slave finishes at the write whose bytes complete the size and only there, the empty file included, closes once, and holds the master's file |
| FileRuns.CountsArePending | src/common/task.cpp:40-43 | in every state of a transfer refCount is the number of pending requests on either side |
| FileTold.SlaveIsTold | src/common/transfer.cpp:266-284 | over every run: the CHECK under way announces the master's file under the path the transfer was begun for, with its name and size, and with the times of the file system exactly if they are to be kept; whenever the slave has a request pending that is the configuration it holds, and that file the one it opens and writes |
| FileObjects.RunLoop | src/common/transfer.cpp:56-288 | any sequence of callbacks and commands on an `HdcFile` object: its refCount is the number of requests whose callback is still to fire plus the stray reads |
| FileObjects.CopyFiles | src/common/file.cpp:33-257 | two `HdcFile` objects driven through any order of completions and commands: the files the slave counted are copied byte for byte; once it is finished that is all of them, each closed once by either object, with no request of the slave left |
| Tokenizer.SplitOfJoinIff | src/host/main.cpp:117-126 | splitting the joined arguments gives them back exactly if each is non-empty, has no double quote, has a space if it has a tab, CR or LF, and at most 15357 characters if it has a space |
| Tokenizer.SplitAfterJoinIff | src/host/main.cpp:117-126 | the same behind any line whose quotes are in pairs |
| Tokenizer.LongArgumentIsLost | src/common/base.cpp:1189-1198 | an argument with a space and more than 15357 characters leaves no word behind |
| Tokenizer.LongestArgument | src/common/base.cpp:1189-1198 | 15357 spaces come back, 15358 are lost |
| Tokenizer.TokensHaveNone | src/common/base.cpp:565-603 | no word of any line has a double quote in it |
| Tokenizer.BlanksSeparate | src/common/base.cpp:576-590 | exactly space, tab, LF and CR separate words outside quotes |
| Tokenizer.QuotedPart | src/common/base.cpp:565-603 | a quoted part belongs to the word around it, blanks and all, and an empty one makes an empty word |
| Tokenizer.UnclosedQuote | src/common/base.cpp:565-603 | a quote never closed runs to the end of the line |
| CommandLine.SplitCommandToArgs | src/common/base.cpp:531-613 | the in-place loop: argc is the number of words and at most (len + 1) / 2, every write stays in the block, and each argument is the word of the recursive tokenizer |
| CommandLine.IsRegisterCommand | src/host/main.cpp:37-82 | the first registered command that matches one argument or two |
| CommandLine.SplitOptionAndCommand | src/host/main.cpp:101-131 | the loop with foundCommand divides the arguments as the recursive description does |
| CommandLine.ArgumentsComeBackIff | src/host/main.cpp:101-131 | through both: what stands before the command is the option string, and the arguments after it come back exactly if each survives quoting, its limit of 15357 characters included |
| CommandLine.CommandLineWords | src/host/main.cpp:84-131 | the command line begins with the registered name as typed; its words are those of the name, then -cwd and the words of the directory exactly for file send, file recv, install and sideload with a directory, then the arguments, these exactly if each survives quoting |
| CommandLine.TwoWords | src/host/main.cpp:37-82 | a name of two words is two words of the line |
| CommandLine.MatchMeans | src/host/main.cpp:68-82 | what is matched is the argument, or it and the next, as typed, and nothing that is not registered |
| CommandLine.NoCommand | src/host/main.cpp:101-131 | without a registered command everything is the option string |

## Left out

- UartSegment.SendUARTData: buffers of 2^31 bytes and more, since the callers pass an `int` and the remaining size is one; waiting for a slot is a guard of the state machines, not a thread.
- ArqSafety.DeliveredIsPrefix: device writes succeed and loss is of whole packages on the line; the session exists at the receiver; one caller of SendUARTData at a time; payloads are not empty, as no session packet is.
- StackSafety.DispatchedIsPrefixOfSent: a package is lost before its first byte is read, so no read times out inside a package; damage to single bytes is in UartChecksum instead.
- StackSafety.NothingOnTheWayMeansAllDispatched: the count of bytes under way in the socket pair, against which the source checks each read, is not modelled; reads never exceed what was written.
- UartLink.HdcUart.SendPkgInUARTOutMap: a failing device write, which erases from the queue in the middle of the iteration.
- UartReadLoop.TimelyReadsLoseNothing: stated for the daemon's loop, which ends when the device has no more rounds, as are the results on timeouts; the host's loop is proved against the same recursive loop.
- Session.OnRead: refuses a head whose sizes pass 2^32 together; what the code does with it, and when that makes a difference, is in SessionWidth. The command handler is taken to succeed.
- Channel.SendChannel: relies on memcpy_s refusing a destination of no bytes, so that an empty buffer is not sent; the library is not part of this model.
- SerialFresh.FreshRoundTripIff: a number that the parser leaves unwritten in an element it has just declared is 0 here and undefined in C++, which concerns zero fixed64 members of vector elements.
- SerialStructs.TransferConfigComesBack: strings of 2^31 bytes and more, which memcpy_s does not copy.
- SerialRead.ParseText: an announced length of 2^31 or more fails here and leaves the member alone; the source resizes the string, and copies only if a limited reader cuts the length down.
- SerialReader.Reader.Read: sizes of 2^31 and more, for which memcpy_s refuses to copy; no parser here asks for one.
- SerialMap.MapReads: maps are read as the only member of a message; keys are numbers or strings, values numbers, strings or messages.
- ArqProgress.LinkProgresses: time is not counted, here and in ArqSettle and StackProgress; a timeout is an event that may happen once a package waits.
- StackProgress.AllMessagesArrive: the run it gives carries and reads each package whole; other pieces are in StackSafety.
- UartAnswers.DataIsAcknowledged: for queues as the link itself fills them, where every response is an ACK; a queued NAK of the same index would stand in its place, and nothing here queues one.
- FileTask.RecvIOPayload: a DATA payload shorter than its prefix or its announced size is dropped here; LZ4 (foreign code) and files of 2^31 bytes and more are left out, as is the choice of the slave's path and the check for a newer target.
- FileTold.SlaveIsTold: the path is handed on as it is; the slave joining it with the name, and setting the times of the file it has written, are left out.
- FileRuns.EveryRunCopiesEveryFile: opens, closes and sends succeed, writes are full, reads may be short, the source does not change; failures are in FileRefs. A second close on a handle whose first close is pending is two requests here.
- FileCallbacks.HdcFile.SimpleFileIO: relies on memcpy_s refusing a missing source; the file descriptor is the file opened last.
- CommandLine.SplitOptionAndCommand: the working directory is a parameter, with its separator at its end; relies on vsnprintf_s reporting what does not fit its buffer.
- PKG_OPTION_RESET beyond its refusal by the parser, session re-creation after an error, and the FREE package a failing session sends; FREE packages appear in the scheduler as packages that bypass the slots.
- Serializer members of type double, float, enum, optional and oneof.
- libuv loops, threads, timers and locks: each read, write, timeout and file request is an event of a state machine.
- Authentication, USB and TCP transport, JDWP, shell, port forwarding, command translation, logging.

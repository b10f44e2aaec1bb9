/** The receiving side of src/common/uart.cpp as values: ValidateUartPacket and PackageProcess. */
module UartReceive {
  import opened Bytes
  import opened UartHead
  import opened UartQueue

  // One side of a serial line with its session: the output queue, the index dispatched last, the
  // payloads handed to the session so far, and the sessions freed or reset on request of the peer.
  datatype Endpoint = Endpoint(
    link: Link,
    dispatched: U32,
    delivered: seq<seq<Byte>>,
    freed: seq<U32>,
    resets: seq<U32>)

  const NEW_ENDPOINT := Endpoint(EMPTY_LINK, 0, [], [], [])

  datatype Validation = Validation(ep: Endpoint, ok: bool)

  predicate FlagOk(buf: seq<Byte>)
    requires |buf| >= HEAD_SIZE
  {
    buf[0] == FLAG0 && buf[1] == FLAG1
  }

  function PacketSize(buf: seq<Byte>): nat
    requires |buf| >= HEAD_SIZE
  {
    HEAD_SIZE + DataSizeOf(buf)
  }

  // Restartession: drop what is queued for the session and free it.
  function Restart(ep: Endpoint, sid: U32): Endpoint {
    ep.(link := Clear(ep.link, sid), freed := ep.freed + [sid])
  }

  // What a package whose data has arrived makes the link do: a response settles a queued package,
  // anything else is acknowledged.
  function Settle(ep: Endpoint, h: Head): Endpoint {
    if h.IsResponsePackage()
    then ep.(link := Response(ep.link, h))
    else ep.(link := Respond(ep.link, h.sessionId, h.packageIndex, PKG_OPTION_ACK))
  }

  function ValidateUartPacket(buf: seq<Byte>, ep: Endpoint): Validation
    requires |buf| >= HEAD_SIZE
  {
    var h := DecodeHead(buf);
    if !FlagOk(buf) then Validation(ep, false)
    else if !ValidateHead(buf) then Validation(ep, false)
    else if PacketSize(buf) > MAX_UART_SIZE_IOBUF then Validation(ep, false)
    else if h.HasOption(PKG_OPTION_RESET) then Validation(ep.(resets := ep.resets + [h.sessionId]), false)
    else
      var ep1 := if h.HasOption(PKG_OPTION_FREE) then Restart(ep, h.sessionId) else ep;
      if |buf| < PacketSize(buf) then Validation(ep1, true)
      else if !ValidateData(buf) then Validation(ep1, false)
      else Validation(Settle(ep1, h), true)
  }

  // A complete package with data goes to the session unless its index is the one dispatched last.
  function Dispatch(ep: Endpoint, packageIndex: U32, payload: seq<Byte>): Endpoint {
    if ep.dispatched == packageIndex then ep
    else ep.(dispatched := packageIndex, delivered := ep.delivered + [payload])
  }

  datatype Parsed = Parsed(rest: seq<Byte>, ep: Endpoint, expected: nat)

  function PackageProcess(buf: seq<Byte>, ep: Endpoint): Parsed
    decreases |buf|
  {
    if |buf| < HEAD_SIZE then Parsed(buf, ep, if |buf| > 1 then HEAD_SIZE else 0)
    else
      var v := ValidateUartPacket(buf, ep);
      var size := PacketSize(buf);
      if !v.ok then Parsed([], v.ep, 0)
      else if size == HEAD_SIZE then PackageProcess(buf[size..], v.ep)
      else if |buf| >= size then
        PackageProcess(buf[size..], Dispatch(v.ep, DecodeHead(buf).packageIndex, buf[HEAD_SIZE..size]))
      else Parsed(buf, v.ep, size)
  }

  // The whole effect of one package that arrived intact.
  function Receive(ep: Endpoint, f: Frame): Endpoint {
    var ep1 := Settle(ep, f.head);
    if f.payload == [] then ep1 else Dispatch(ep1, f.head.packageIndex, f.payload)
  }

  function ReceiveAll(ep: Endpoint, fs: seq<Frame>): Endpoint
    decreases |fs|
  {
    if fs == [] then ep else ReceiveAll(Receive(ep, fs[0]), fs[1..])
  }
}

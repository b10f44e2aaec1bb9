/** The output queue of src/common/uart.cpp as values: what each operation on outPkgs and slots does. */
module UartQueue {
  import opened Bytes
  import opened UartHead

  const RETRY_CHANCE: nat := 4

  datatype PkgStatus = WaitSend | WaitResponse

  // HandleOutputPkg. `sent` and `naks` are history: how often the package was written to the
  // device, and how many NAKs arrived while it waited for its response.
  datatype Pkg = Pkg(
    key: string,
    sessionId: U32,
    response: bool,
    ack: bool,
    status: PkgStatus,
    frame: Frame,
    retryChance: nat,
    sent: nat,
    naks: nat)
  {
    predicate DataOf(sid: U32) {
      !response && sessionId == sid
    }
  }

  // outPkgs and the sessions holding a slot.
  datatype Link = Link(pkgs: seq<Pkg>, slots: set<U32>)

  const EMPTY_LINK := Link([], {})

  function KeyOf(h: Head): string {
    ToPkgIdentityString(h.IsResponsePackage(), h.sessionId, h.packageIndex)
  }

  function NewPkg(f: Frame): Pkg
    requires f.Sized()
  {
    Pkg(KeyOf(f.head), f.head.sessionId, f.head.IsResponsePackage(), f.head.HasOption(PKG_OPTION_ACK), WaitSend,
        Checked(f), RETRY_CHANCE, 0, 0)
  }

  // ---- std::find_if by key ----------------------------------------------------

  function Find(pkgs: seq<Pkg>, key: string): (r: Option<nat>)
    ensures r.Some? ==> r.value < |pkgs| && pkgs[r.value].key == key
    ensures r.Some? ==> forall i | 0 <= i < r.value :: pkgs[i].key != key
    ensures r.None? ==> forall i | 0 <= i < |pkgs| :: pkgs[i].key != key
  {
    if pkgs == [] then None
    else if pkgs[0].key == key then Some(0)
    else match Find(pkgs[1..], key)
      case None => None
      case Some(i) => Some(i + 1)
  }

  // ---- RequestSendPackage -----------------------------------------------------

  // slots.Wait returns only once the session holds no slot.
  predicate SlotFree(l: Link, sid: U32, queue: bool) {
    queue ==> sid !in l.slots
  }

  function Request(l: Link, f: Frame, queue: bool): Link
    requires f.Sized() && SlotFree(l, f.head.sessionId, queue)
  {
    var slots := if queue then l.slots + {f.head.sessionId} else l.slots;
    if Find(l.pkgs, KeyOf(f.head)).None? then Link(l.pkgs + [NewPkg(f)], slots) else Link(l.pkgs, slots)
  }

  // ResponseUartTrans: a head-only package that does not wait for a slot.
  function Respond(l: Link, sessionId: U32, packageIndex: U32, option: Byte): Link {
    Request(l, Frame(NewHead(sessionId, option, 0, packageIndex), []), false)
  }

  // ---- ProcessResponsePackage -------------------------------------------------

  function RemoveAt(pkgs: seq<Pkg>, i: nat): seq<Pkg>
    requires i < |pkgs|
  {
    pkgs[..i] + pkgs[i + 1..]
  }

  function Renew(p: Pkg): Pkg {
    p.(status := WaitSend, naks := if p.status == WaitResponse then p.naks + 1 else p.naks)
  }

  function Response(l: Link, h: Head): Link {
    match Find(l.pkgs, ToPkgIdentityString(false, h.sessionId, h.packageIndex))
    case None => l
    case Some(i) =>
      if h.HasOption(PKG_OPTION_ACK)
      then Link(RemoveAt(l.pkgs, i), l.slots - {l.pkgs[i].sessionId})
      else Link(l.pkgs[i := Renew(l.pkgs[i])], l.slots)
  }

  // ---- ClearUARTOutMap --------------------------------------------------------

  function Without(pkgs: seq<Pkg>, sid: U32): seq<Pkg> {
    if pkgs == [] then []
    else if pkgs[0].sessionId == sid then Without(pkgs[1..], sid)
    else [pkgs[0]] + Without(pkgs[1..], sid)
  }

  predicate HasData(pkgs: seq<Pkg>, sid: U32) {
    exists i :: 0 <= i < |pkgs| && pkgs[i].DataOf(sid)
  }

  function Clear(l: Link, sid: U32): Link {
    Link(Without(l.pkgs, sid), if HasData(l.pkgs, sid) then l.slots - {sid} else l.slots)
  }

  // ---- SendPkgInUARTOutMap ----------------------------------------------------

  // One walk over the queue: what stays, what was written to the device in order, and the session
  // whose package ran out of retries, if the walk ended there.
  datatype Walk = Walk(pkgs: seq<Pkg>, frames: seq<Frame>, gaveUp: Option<U32>) {
    // This walk, after one that left `done` and wrote `sent`.
    function After(done: seq<Pkg>, sent: seq<Frame>): Walk {
      Walk(done + pkgs, sent + frames, gaveUp)
    }
  }

  function Transmitted(p: Pkg): Pkg {
    p.(status := WaitResponse, sent := p.sent + 1)
  }

  // expired[i] says whether the i-th queued package is found to have waited its full time.
  function Scan(todo: seq<Pkg>, busy: set<U32>, expired: seq<bool>): Walk
    requires |expired| == |todo|
    decreases |todo|
  {
    if todo == [] then Walk([], [], None)
    else
      var p := todo[0];
      if p.status == WaitSend then
        if !p.response && p.sessionId in busy then
          var w := Scan(todo[1..], busy, expired[1..]);
          w.(pkgs := [p] + w.pkgs)
        else if p.response then
          var w := Scan(todo[1..], busy, expired[1..]);
          w.(frames := [p.frame] + w.frames)
        else
          var w := Scan(todo[1..], busy + {p.sessionId}, expired[1..]);
          Walk([Transmitted(p)] + w.pkgs, [p.frame] + w.frames, w.gaveUp)
      else if expired[0] then
        if p.retryChance > 0
        then Walk([p.(status := WaitSend, retryChance := p.retryChance - 1)] + todo[1..], [], None)
        else Walk(todo, [], Some(p.sessionId))
      else
        var w := Scan(todo[1..], busy + {p.sessionId}, expired[1..]);
        w.(pkgs := [p] + w.pkgs)
  }

  datatype Pass = Pass(link: Link, frames: seq<Frame>, gaveUp: Option<U32>)

  // OnTransferError clears the session at once when the retries are used up.
  function SendPass(l: Link, expired: seq<bool>): Pass
    requires |expired| == |l.pkgs|
  {
    var w := Scan(l.pkgs, {}, expired);
    var l1 := Link(w.pkgs, l.slots);
    Pass(if w.gaveUp.Some? then Clear(l1, w.gaveUp.value) else l1, w.frames, w.gaveUp)
  }
}

/** HdcUARTBase of src/common/uart.cpp: the methods that update the queue and the receiving state. */
module UartLink {
  import opened Bytes
  import opened UartHead
  import opened UartQueue
  import opened UartReceive

  class HdcUart {
    var outPkgs: seq<Pkg>
    var hasWaitPkg: set<U32>               // sessions holding a slot
    var dispatchedPackageIndex: U32
    var stream: seq<seq<Byte>>             // payloads written to the session's pipe
    var freed: seq<U32>
    var resets: seq<U32>
    var written: seq<Frame>                // what the serial device was given

    function Queue(): Link
      reads this
    {
      Link(outPkgs, hasWaitPkg)
    }

    function State(): Endpoint
      reads this
    {
      Endpoint(Queue(), dispatchedPackageIndex, stream, freed, resets)
    }

    constructor ()
      ensures State() == NEW_ENDPOINT && written == []
    {
      outPkgs, hasWaitPkg, dispatchedPackageIndex, stream, freed, resets, written := [], {}, 0, [], [], [], [];
    }

    method FindPkg(key: string) returns (r: Option<nat>)
      ensures r == Find(outPkgs, key)
    {
      var i := 0;
      while i < |outPkgs|
        invariant i <= |outPkgs|
        invariant forall k | 0 <= k < i :: outPkgs[k].key != key
      {
        if outPkgs[i].key == key {
          return Some(i);
        }
        i := i + 1;
      }
      r := None;
    }

    // The package arrives in the caller's buffer; its checksums are written there.
    method RequestSendPackage(data: array<Byte>, queue: bool)
      requires data.Length >= HEAD_SIZE && data.Length == HEAD_SIZE + DataSizeOf(data[..])
      requires SlotFree(Queue(), DecodeFrame(data[..]).head.sessionId, queue)
      modifies this, data
      ensures DecodeFrame(old(data[..])).Sized()
      ensures State() == old(State()).(link := Request(old(Queue()), DecodeFrame(old(data[..])), queue))
      ensures written == old(written)
    {
      hide ToPkgIdentityString, WithCheckSums;
      ghost var bytes := data[..];
      var head := DecodeHead(data[..]);
      ghost var f := DecodeFrame(data[..]);
      DecodedBack(bytes);
      if queue {
        hasWaitPkg := hasWaitPkg + {head.sessionId};
      }
      var pkgId := KeyOf(head);
      var it := FindPkg(pkgId);
      if it.None? {
        CheckedIsUpdateCheckSum(f);
        UpdateCheckSum(data);
        FrameRoundTrip(Checked(f));
        outPkgs := outPkgs + [Pkg(pkgId, head.sessionId, head.IsResponsePackage(), head.HasOption(PKG_OPTION_ACK),
                                  WaitSend, DecodeFrame(data[..]), RETRY_CHANCE, 0, 0)];
      }
    }

    method ProcessResponsePackage(head: Head)
      modifies this
      ensures State() == old(State()).(link := Response(old(Queue()), head))
      ensures written == old(written)
    {
      hide ToPkgIdentityString;
      var it := FindPkg(ToPkgIdentityString(false, head.sessionId, head.packageIndex));
      if it.Some? {
        var p := outPkgs[it.value];
        if head.HasOption(PKG_OPTION_ACK) {
          hasWaitPkg := hasWaitPkg - {p.sessionId};
          outPkgs := outPkgs[..it.value] + outPkgs[it.value + 1..];
        } else {
          outPkgs := outPkgs[it.value := Renew(p)];
        }
      }
    }

    method ResponseUartTrans(sessionId: U32, packageIndex: U32, option: Byte)
      modifies this
      ensures State() == old(State()).(link := Respond(old(Queue()), sessionId, packageIndex, option))
      ensures written == old(written)
    {
      var f := Frame(NewHead(sessionId, option, 0, packageIndex), []);
      FrameRoundTrip(f);
      var bytes := f.Encode();
      var buf := new Byte[HEAD_SIZE](i requires 0 <= i < HEAD_SIZE => bytes[i]);
      assert buf[..] == bytes;
      RequestSendPackage(buf, false);
    }

    method ClearUARTOutMap(sessionId: U32)
      modifies this
      ensures State() == old(State()).(link := Clear(old(Queue()), sessionId))
      ensures written == old(written)
    {
      hide Clearing;
      ghost var pkgs, k := outPkgs, 0;
      var it := 0;
      ClearBegins(pkgs, sessionId, hasWaitPkg);
      while it < |outPkgs|
        invariant it <= |outPkgs| && Clearing(pkgs, k, sessionId, old(hasWaitPkg), outPkgs, it, hasWaitPkg)
        modifies `outPkgs, `hasWaitPkg
        decreases |outPkgs| - it
      {
        var p := outPkgs[it];
        ClearRound(pkgs, k, sessionId, old(hasWaitPkg), outPkgs, it, hasWaitPkg);
        if p.sessionId == sessionId {
          if !p.response {
            hasWaitPkg := hasWaitPkg - {p.sessionId};
          }
          outPkgs := outPkgs[..it] + outPkgs[it + 1..];
        } else {
          it := it + 1;
        }
        k := k + 1;
      }
      ClearEnds(pkgs, k, sessionId, old(hasWaitPkg), outPkgs, hasWaitPkg);
    }

    // expired[k] tells whether the k-th package is found to have waited 1000 ms when it is visited.
    method SendPkgInUARTOutMap(expired: seq<bool>) returns (gaveUp: Option<U32>)
      requires |expired| == |outPkgs|
      modifies this
      ensures var r := SendPass(old(Queue()), expired);
              && State() == old(State()).(link := r.link,
                                          freed := old(freed) + (if r.gaveUp.Some? then [r.gaveUp.value] else []))
              && written == old(written) + r.frames
              && gaveUp == r.gaveUp
    {
      hide ToPkgIdentityString, Scan, FromHere, Without, HasData;
      ghost var whole := Scan(outPkgs, {}, expired);
      ghost var sent := [];
      var busy: set<U32> := {};
      var it, k := 0, 0;
      gaveUp := None;
      WalkBegins(outPkgs, expired);
      while it < |outPkgs|
        invariant it <= |outPkgs| && |outPkgs| - it + k == |expired|
        invariant written == old(written) + sent
        invariant whole == FromHere(outPkgs, it, busy, expired, k, sent)
        invariant gaveUp == None
        modifies `outPkgs, `written
        decreases |outPkgs| - it
      {
        var p := outPkgs[it];
        WalkRound(outPkgs, it, busy, expired, k, sent);
        if p.status == WaitSend {
          if !p.response && p.sessionId in busy {
            it, k := it + 1, k + 1;
            continue;
          }
          written := written + [p.frame];
          sent := sent + [p.frame];
          if p.response {
            outPkgs := outPkgs[..it] + outPkgs[it + 1..];
            k := k + 1;
            continue;
          }
          outPkgs := outPkgs[it := Transmitted(p)];
          busy := busy + {p.sessionId};
        } else {
          if expired[k] {
            if p.retryChance > 0 {
              outPkgs := outPkgs[it := p.(status := WaitSend, retryChance := p.retryChance - 1)];
            } else {
              gaveUp := Some(p.sessionId);
            }
            break;
          }
          busy := busy + {p.sessionId};
        }
        it, k := it + 1, k + 1;
      }
      if gaveUp.None? && it == |outPkgs| {
        WalkEnds(outPkgs, busy, expired, k, sent);
      }
      assert whole == Walk(outPkgs, sent, gaveUp);
      if gaveUp.Some? {
        freed := freed + [gaveUp.value];
        ClearUARTOutMap(gaveUp.value);
      }
    }

    // The session of a package is taken to exist here, as the peer's link assumes.
    method ValidateUartPacket(data: seq<Byte>) returns (ok: bool, packageIndex: U32, packetSize: nat)
      requires |data| >= HEAD_SIZE
      modifies this
      ensures Validation(State(), ok) == UartReceive.ValidateUartPacket(data, old(State()))
      ensures ok ==> packageIndex == DecodeHead(data).packageIndex && packetSize == PacketSize(data)
      ensures written == old(written)
    {
      var head := DecodeHead(data);
      ok, packageIndex, packetSize := false, 0, 0;
      if !FlagOk(data) || !ValidateHead(data) {
        return;
      }
      packageIndex, packetSize := head.packageIndex, HEAD_SIZE + head.dataSize;
      if packetSize > MAX_UART_SIZE_IOBUF {
        return;
      }
      if head.HasOption(PKG_OPTION_RESET) {
        resets := resets + [head.sessionId];
        return;
      }
      if head.HasOption(PKG_OPTION_FREE) {
        ClearUARTOutMap(head.sessionId);
        freed := freed + [head.sessionId];
      }
      if |data| >= packetSize {
        if !ValidateData(data) {
          return;
        }
        if head.IsResponsePackage() {
          ProcessResponsePackage(head);
        } else {
          ResponseUartTrans(head.sessionId, head.packageIndex, PKG_OPTION_ACK);
        }
      }
      ok := true;
    }

    // Works on the read buffer until less than a head is left or a package is incomplete.
    method PackageProcess(readBuf: seq<Byte>) returns (data: seq<Byte>, expected: nat)
      modifies this
      ensures Parsed(data, State(), expected) == UartReceive.PackageProcess(readBuf, old(State()))
      ensures written == old(written)
    {
      hide UartReceive.ValidateUartPacket;
      data := readBuf;
      while |data| >= HEAD_SIZE
        invariant UartReceive.PackageProcess(data, State()) == UartReceive.PackageProcess(readBuf, old(State()))
        invariant written == old(written)
        decreases |data|
      {
        var ok, packageIndex, packetSize := ValidateUartPacket(data);
        if !ok {
          data := [];
          packetSize := 0;
        } else if packetSize != HEAD_SIZE {
          if |data| < packetSize {
            return data, packetSize;
          }
          if dispatchedPackageIndex != packageIndex {
            dispatchedPackageIndex := packageIndex;
            stream := stream + [data[HEAD_SIZE..packetSize]];
          }
        }
        data := data[packetSize..];
      }
      expected := if |data| > 1 then HEAD_SIZE else 0;
    }
  }

  lemma DecodedBack(p: seq<Byte>)
    requires |p| >= HEAD_SIZE && |p| == HEAD_SIZE + DataSizeOf(p)
    ensures DecodeFrame(p).Sized() && DecodeFrame(p).Encode() == p
  {
    EncodeHeadBack(p[..HEAD_SIZE]);
    assert DecodeHead(p) == DecodeHead(p[..HEAD_SIZE]) by {
      var q := p[..HEAD_SIZE];
      assert q[2..4] == p[2..4] && q[4..8] == p[4..8] && q[8..12] == p[8..12];
      assert q[12..16] == p[12..16] && q[16..20] == p[16..20] && q[20..24] == p[20..24];
    }
    assert p == p[..HEAD_SIZE] + p[HEAD_SIZE..];
  }

  // ClearUARTOutMap after k entries of `pkgs`: what was kept of them is in front of the cursor, the rest
  // behind it, and the slot is gone once one of them held data.
  predicate Clearing(pkgs: seq<Pkg>, k: nat, sid: U32, was: set<U32>, q: seq<Pkg>, it: nat, slots: set<U32>) {
    && k <= |pkgs| && it <= |q| && q[..it] == Without(pkgs[..k], sid) && q[it..] == pkgs[k..]
    && slots == if HasData(pkgs[..k], sid) then was - {sid} else was
  }

  lemma ClearBegins(pkgs: seq<Pkg>, sid: U32, was: set<U32>)
    ensures Clearing(pkgs, 0, sid, was, pkgs, 0, was)
  {
  }

  lemma ClearRound(pkgs: seq<Pkg>, k: nat, sid: U32, was: set<U32>, q: seq<Pkg>, it: nat, slots: set<U32>)
    requires Clearing(pkgs, k, sid, was, q, it, slots) && it < |q|
    ensures var p := q[it];
            var rest := if p.DataOf(sid) then slots - {sid} else slots;
            if p.sessionId == sid then Clearing(pkgs, k + 1, sid, was, q[..it] + q[it + 1..], it, rest)
            else Clearing(pkgs, k + 1, sid, was, q, it + 1, rest)
  {
    hide Without, HasData;
    assert q[it] == q[it..][0] == pkgs[k] && pkgs[k..][1..] == pkgs[k + 1..];
    ClearStep(pkgs, k, sid);
    AtCursor(q, it, q[it]);
  }

  lemma ClearEnds(pkgs: seq<Pkg>, k: nat, sid: U32, was: set<U32>, q: seq<Pkg>, slots: set<U32>)
    requires Clearing(pkgs, k, sid, was, q, |q|, slots)
    ensures Link(q, slots) == Clear(Link(pkgs, was), sid)
  {
    hide Without, HasData;
    assert q[|q|..] == [] && q[..|q|] == q && pkgs[..k] == pkgs;
  }

  // One more entry looked at by ClearUARTOutMap.
  lemma {:induction false} ClearStep(pkgs: seq<Pkg>, k: nat, sid: U32)
    requires k < |pkgs|
    ensures Without(pkgs[..k + 1], sid) == Without(pkgs[..k], sid) + (if pkgs[k].sessionId == sid then [] else [pkgs[k]])
    ensures HasData(pkgs[..k + 1], sid) <==> HasData(pkgs[..k], sid) || pkgs[k].DataOf(sid)
  {
    WithoutAppend(pkgs[..k], pkgs[k], sid);
    var a, b := pkgs[..k], pkgs[..k + 1];
    assert b == a + [pkgs[k]];
    assert forall i | 0 <= i < |b| :: b[i] == if i < k then a[i] else pkgs[k];
    assert b[k] == pkgs[k];
  }

  lemma {:induction false} WithoutAppend(pkgs: seq<Pkg>, p: Pkg, sid: U32)
    ensures Without(pkgs + [p], sid) == Without(pkgs, sid) + (if p.sessionId == sid then [] else [p])
  {
    if pkgs == [] {
      assert [p][1..] == [];
    } else {
      assert (pkgs + [p])[1..] == pkgs[1..] + [p];
      WithoutAppend(pkgs[1..], p, sid);
    }
  }

  // What one walk gives in all, with the cursor at `it` of the queue as it is by now, and at k of `expired`.
  function FromHere(q: seq<Pkg>, it: nat, busy: set<U32>, expired: seq<bool>, k: nat, sent: seq<Frame>): Walk
    requires it <= |q| && |q| - it + k == |expired|
  {
    Scan(q[it..], busy, expired[k..]).After(q[..it], sent)
  }

  lemma WalkBegins(q: seq<Pkg>, expired: seq<bool>)
    requires |expired| == |q|
    ensures Scan(q, {}, expired) == FromHere(q, 0, {}, expired, 0, [])
  {
    hide Scan;
    assert q[0..] == q && expired[0..] == expired;
  }

  lemma WalkEnds(q: seq<Pkg>, busy: set<U32>, expired: seq<bool>, k: nat, sent: seq<Frame>)
    requires k == |expired|
    ensures FromHere(q, |q|, busy, expired, k, sent) == Walk(q, sent, None)
  {
    assert q[|q|..] == [];
  }

  // The visit of one package by SendPkgInUARTOutMap.
  lemma WalkRound(q: seq<Pkg>, it: nat, busy: set<U32>, expired: seq<bool>, k: nat, sent: seq<Frame>)
    requires it < |q| && |q| - it + k == |expired|
    ensures var w, p := FromHere(q, it, busy, expired, k, sent), q[it];
            if p.status == WaitSend && !p.response && p.sessionId in busy then
              w == FromHere(q, it + 1, busy, expired, k + 1, sent)
            else if p.status == WaitSend && p.response then
              w == FromHere(q[..it] + q[it + 1..], it, busy, expired, k + 1, sent + [p.frame])
            else if p.status == WaitSend then
              w == FromHere(q[it := Transmitted(p)], it + 1, busy + {p.sessionId}, expired, k + 1, sent + [p.frame])
            else if !expired[k] then
              w == FromHere(q, it + 1, busy + {p.sessionId}, expired, k + 1, sent)
            else if p.retryChance > 0 then
              w == Walk(q[it := p.(status := WaitSend, retryChance := p.retryChance - 1)], sent, None)
            else
              w == Walk(q, sent, Some(p.sessionId))
  {
    hide Scan, Walk.After;
    var p := q[it];
    ScanVisits(q[it..], busy, expired[k..], q[..it], sent);
    assert expired[k..][1..] == expired[k + 1..];
    AtCursor(q, it, Transmitted(p));
    if p.retryChance > 0 {
      AtCursor(q, it, p.(status := WaitSend, retryChance := p.retryChance - 1));
    }
  }

  lemma ScanVisits(todo: seq<Pkg>, busy: set<U32>, expired: seq<bool>, done: seq<Pkg>, sent: seq<Frame>)
    requires |expired| == |todo|
    ensures var w := Scan(todo, busy, expired);
            if todo == [] then w.After(done, sent) == Walk(done, sent, None)
            else
              var p, rest, more := todo[0], todo[1..], expired[1..];
              if p.status == WaitSend && !p.response && p.sessionId in busy then
                w.After(done, sent) == Scan(rest, busy, more).After(done + [p], sent)
              else if p.status == WaitSend && p.response then
                w.After(done, sent) == Scan(rest, busy, more).After(done, sent + [p.frame])
              else if p.status == WaitSend then
                w.After(done, sent) == Scan(rest, busy + {p.sessionId}, more).After(done + [Transmitted(p)], sent + [p.frame])
              else if !expired[0] then
                w.After(done, sent) == Scan(rest, busy + {p.sessionId}, more).After(done + [p], sent)
              else if p.retryChance > 0 then
                w.After(done, sent) == Walk(done + ([p.(status := WaitSend, retryChance := p.retryChance - 1)] + rest), sent, None)
              else
                w.After(done, sent) == Walk(done + ([p] + rest), sent, Some(p.sessionId))
  {
    if todo != [] {
      var p := todo[0];
      assert todo == [p] + todo[1..];
      var busy1 := if p.status == WaitSend && (p.response || p.sessionId in busy) then busy else busy + {p.sessionId};
      var w := Scan(todo[1..], busy1, expired[1..]);
      assert done + ([p] + w.pkgs) == done + [p] + w.pkgs;
      assert done + ([Transmitted(p)] + w.pkgs) == done + [Transmitted(p)] + w.pkgs;
      assert sent + ([p.frame] + w.frames) == sent + [p.frame] + w.frames;
    }
  }
}

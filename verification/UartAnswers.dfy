/** What a package that arrives makes the receiver answer, and what an answer does to the sender's queue. */
module UartAnswers {
  import opened Bytes
  import opened UartHead
  import opened UartQueue
  import opened UartReceive
  import opened UartParser

  // A head-only package that waits to be sent and acknowledges package `index` of session `sid`.
  predicate Acknowledges(p: Pkg, sid: U32, index: U32) {
    && p.response && p.status == WaitSend
    && p.frame.WellFormed() && p.frame.payload == [] && p.frame.head.HasOption(PKG_OPTION_ACK)
    && p.frame.head.sessionId == sid && p.frame.head.packageIndex == index
  }

  // What the link itself queues: every entry under the key of its package, and every response an ACK.
  predicate Honest(pkgs: seq<Pkg>) {
    forall i | 0 <= i < |pkgs| :: HonestEntry(pkgs[i])
  }

  predicate HonestEntry(p: Pkg) {
    && p.key == KeyOf(p.frame.head) && p.sessionId == p.frame.head.sessionId
    && p.response == p.frame.head.IsResponsePackage()
    && (p.response ==> Acknowledges(p, p.frame.head.sessionId, p.frame.head.packageIndex))
  }

  // ---- the queue stays honest ---------------------------------------------------------------

  lemma NewAck(sid: U32, k: U32)
    ensures var p := NewPkg(Frame(NewHead(sid, PKG_OPTION_ACK, 0, k), []));
            HonestEntry(p) && Acknowledges(p, sid, k) && p.frame.head.option == 4 && p.key == ToPkgIdentityString(true, sid, k)
  {
    hide ToPkgIdentityString;
    CheckedIsWellFormed(Frame(NewHead(sid, PKG_OPTION_ACK, 0, k), []));
  }

  // An acknowledgement is queued behind the rest, unless it is queued already.
  lemma AckIsQueued(l: Link, sid: U32, k: U32) returns (i: nat)
    requires Honest(l.pkgs)
    ensures var r := Respond(l, sid, k, PKG_OPTION_ACK);
            && Honest(r.pkgs) && r.slots == l.slots && l.pkgs <= r.pkgs && |r.pkgs| <= |l.pkgs| + 1
            && i < |r.pkgs| && Acknowledges(r.pkgs[i], sid, k)
            && (forall j | |l.pkgs| <= j < |r.pkgs| :: Acknowledges(r.pkgs[j], sid, k) && r.pkgs[j].frame.head.option == 4)
  {
    hide ToPkgIdentityString, NewPkg, Acknowledges;
    NewAck(sid, k);
    var found := Find(l.pkgs, ToPkgIdentityString(true, sid, k));
    if found.Some? {
      i := found.value;
      var h := l.pkgs[i].frame.head;
      assert HonestEntry(l.pkgs[i]);
      KeyInjective(h.IsResponsePackage(), h.sessionId, h.packageIndex, true, sid, k);
    } else {
      i := |l.pkgs|;
    }
  }

  lemma AnswerKeepsHonest(l: Link, h: Head)
    requires Honest(l.pkgs)
    ensures Honest(Response(l, h).pkgs)
  {
    hide ToPkgIdentityString, KeyOf;
    var found := Find(l.pkgs, ToPkgIdentityString(false, h.sessionId, h.packageIndex));
    if found.Some? {
      assert HonestEntry(l.pkgs[found.value]);
      assert HonestEntry(Renew(l.pkgs[found.value]));
    }
  }

  lemma {:induction false} WithoutIsHonest(pkgs: seq<Pkg>, sid: U32)
    requires Honest(pkgs)
    ensures Honest(Without(pkgs, sid))
  {
    hide HonestEntry;
    if pkgs != [] {
      WithoutIsHonest(pkgs[1..], sid);
    }
  }

  lemma ValidateKeepsHonest(buf: seq<Byte>, ep: Endpoint)
    requires |buf| >= HEAD_SIZE && Honest(ep.link.pkgs)
    ensures Honest(ValidateUartPacket(buf, ep).ep.link.pkgs)
  {
    hide Honest, Respond, Response, Without, HasData, DecodeHead, FlagOk, ValidateHead, ValidateData, Head.HasOption;
    var h := DecodeHead(buf);
    WithoutIsHonest(ep.link.pkgs, h.sessionId);
    var l := if h.HasOption(PKG_OPTION_FREE) then Clear(ep.link, h.sessionId) else ep.link;
    var i := AckIsQueued(l, h.sessionId, h.packageIndex);
    AnswerKeepsHonest(l, h);
  }

  // Whatever bytes arrive.
  lemma {:induction false} ParserKeepsHonest(buf: seq<Byte>, ep: Endpoint)
    requires Honest(ep.link.pkgs)
    ensures Honest(PackageProcess(buf, ep).ep.link.pkgs)
    decreases |buf|
  {
    hide Honest, ValidateUartPacket;
    if |buf| >= HEAD_SIZE {
      ValidateKeepsHonest(buf, ep);
      var v, size := ValidateUartPacket(buf, ep), PacketSize(buf);
      if v.ok && size == HEAD_SIZE {
        ParserKeepsHonest(buf[size..], v.ep);
      } else if v.ok && |buf| >= size {
        ParserKeepsHonest(buf[size..], Dispatch(v.ep, DecodeHead(buf).packageIndex, buf[HEAD_SIZE..size]));
      }
    }
  }

  // Nor does a package of SendUARTData or a FREE package change that.
  lemma RequestKeepsHonest(l: Link, f: Frame, queue: bool)
    requires Honest(l.pkgs) && f.Sized() && !f.head.IsResponsePackage() && SlotFree(l, f.head.sessionId, queue)
    ensures Honest(Request(l, f, queue).pkgs)
  {
    hide ToPkgIdentityString;
    assert HonestEntry(NewPkg(f));
  }

  // ---- a data package ----------------------------------------------------------------------------

  // One package alone.
  lemma WholePackage(f: Frame, ep: Endpoint)
    requires Plain(f)
    ensures PackageProcess(f.Encode(), ep) == Parsed([], Receive(ep, f), 0)
  {
    hide Receive, Plain, Frame.Encode;
    CompletePackage(f, [], ep);
    assert f.Encode() + [] == f.Encode();
    assert PackageProcess([], Receive(ep, f)) == Parsed([], Receive(ep, f), 0);
  }

  // Every data package that arrives is acknowledged, a duplicate too: an acknowledgement of its index
  // waits in the queue, behind what waited there, and it is the only thing that may be new.
  lemma DataIsAcknowledged(f: Frame, ep: Endpoint) returns (i: nat)
    requires Plain(f) && !f.head.IsResponsePackage() && Honest(ep.link.pkgs)
    ensures var r := PackageProcess(f.Encode(), ep).ep.link;
            && i < |r.pkgs| && Acknowledges(r.pkgs[i], f.head.sessionId, f.head.packageIndex)
            && ep.link.pkgs <= r.pkgs && |r.pkgs| <= |ep.link.pkgs| + 1 && r.slots == ep.link.slots
            && (forall j | |ep.link.pkgs| <= j < |r.pkgs| ::
                 Acknowledges(r.pkgs[j], f.head.sessionId, f.head.packageIndex) && r.pkgs[j].frame.head.option == 4)
  {
    hide Plain, PackageProcess, Frame.Encode, Respond, Acknowledges, Honest;
    WholePackage(f, ep);
    i := AckIsQueued(ep.link, f.head.sessionId, f.head.packageIndex);
  }

  // A pass in which nothing times out sends every acknowledgement that waits.
  lemma {:induction false} AcksGoOut(todo: seq<Pkg>, busy: set<U32>, expired: seq<bool>, i: nat)
    requires |expired| == |todo| && (forall k | 0 <= k < |expired| :: !expired[k])
    requires i < |todo| && todo[i].response && todo[i].status == WaitSend
    ensures todo[i].frame in Scan(todo, busy, expired).frames
    decreases |todo|
  {
    var p, rest := todo[0], todo[1..];
    var busy1 := if p.status == WaitSend && (p.response || p.sessionId in busy) then busy else busy + {p.sessionId};
    var w := Scan(todo, busy, expired);
    if i > 0 {
      AcksGoOut(rest, busy1, expired[1..], i - 1);
      assert todo[i] == rest[i - 1];
    } else {
      assert w.frames[0] == p.frame;
    }
  }

  // ---- answers ---------------------------------------------------------------------------------------

  // A NAK makes the package it names wait to be sent again, and leaves the rest of the queue alone.
  lemma NakPutsBack(l: Link, h: Head, i: nat)
    requires Honest(l.pkgs) && (forall j, k | 0 <= j < k < |l.pkgs| :: l.pkgs[j].key != l.pkgs[k].key)
    requires h.HasOption(PKG_OPTION_NAK) && !h.HasOption(PKG_OPTION_ACK)
    requires i < |l.pkgs|
    ensures var r, p := Response(l, h), l.pkgs[i];
            && |r.pkgs| == |l.pkgs| && r.slots == l.slots
            && if !p.response && p.sessionId == h.sessionId && p.frame.head.packageIndex == h.packageIndex
               then r.pkgs[i] == p.(status := WaitSend, naks := r.pkgs[i].naks)
               else r.pkgs[i] == p
  {
    hide ToPkgIdentityString, Acknowledges;
    var key := ToPkgIdentityString(false, h.sessionId, h.packageIndex);
    var p := l.pkgs[i];
    assert HonestEntry(p);
    KeyInjective(p.response, p.sessionId, p.frame.head.packageIndex, false, h.sessionId, h.packageIndex);
  }

  // An ACK takes the package it names out of the queue and gives its session the slot back; one that
  // names none changes nothing.
  lemma AckTakesOut(l: Link, h: Head)
    requires Honest(l.pkgs) && (forall j, k | 0 <= j < k < |l.pkgs| :: l.pkgs[j].key != l.pkgs[k].key)
    requires h.HasOption(PKG_OPTION_ACK)
    ensures var r := Response(l, h);
            if exists i :: 0 <= i < |l.pkgs| && Names(h, l.pkgs[i]) then
              exists i :: 0 <= i < |l.pkgs| && Names(h, l.pkgs[i]) && r == Link(l.pkgs[..i] + l.pkgs[i + 1..], l.slots - {h.sessionId})
            else r == l
  {
    hide ToPkgIdentityString, Acknowledges;
    var key := ToPkgIdentityString(false, h.sessionId, h.packageIndex);
    forall i | 0 <= i < |l.pkgs| ensures Names(h, l.pkgs[i]) <==> l.pkgs[i].key == key {
      var p := l.pkgs[i];
      assert HonestEntry(p);
      KeyInjective(p.response, p.sessionId, p.frame.head.packageIndex, false, h.sessionId, h.packageIndex);
    }
  }

  predicate Names(h: Head, p: Pkg) {
    !p.response && p.sessionId == h.sessionId && p.frame.head.packageIndex == h.packageIndex
  }

  // ---- packages that free or reset a session ---------------------------------------------------------

  // A package that asks to free its session empties the session's queue, gives its slot back if data was
  // queued, and is acknowledged like any other; all that is left of the session is that acknowledgement.
  lemma FreeClears(f: Frame, ep: Endpoint)
    requires f.WellFormed() && f.payload == [] && !f.head.IsResponsePackage() && Honest(ep.link.pkgs)
    requires f.head.HasOption(PKG_OPTION_FREE) && !f.head.HasOption(PKG_OPTION_RESET)
    ensures var sid, r := f.head.sessionId, PackageProcess(f.Encode(), ep);
            && r.rest == [] && r.ep.freed == ep.freed + [sid] && r.ep.resets == ep.resets && r.ep.delivered == ep.delivered
            && (forall i | 0 <= i < |r.ep.link.pkgs| && r.ep.link.pkgs[i].sessionId == sid ::
                 Acknowledges(r.ep.link.pkgs[i], sid, f.head.packageIndex))
            && (exists i :: 0 <= i < |r.ep.link.pkgs| && Acknowledges(r.ep.link.pkgs[i], sid, f.head.packageIndex))
            && (HasData(ep.link.pkgs, sid) ==> sid !in r.ep.link.slots)
            && (forall p | p in ep.link.pkgs && p.sessionId != sid :: p in r.ep.link.pkgs)
  {
    hide Respond, HasData, Without, Honest, Acknowledges;
    var sid, l := f.head.sessionId, Clear(ep.link, f.head.sessionId);
    FreeIsSettled(f, ep);
    WithoutIsHonest(ep.link.pkgs, sid);
    WithoutKeepsOthers(ep.link.pkgs, sid);
    var i := AckIsQueued(l, sid, f.head.packageIndex);
  }

  lemma FreeIsSettled(f: Frame, ep: Endpoint)
    requires f.WellFormed() && f.payload == [] && !f.head.IsResponsePackage()
    requires f.head.HasOption(PKG_OPTION_FREE) && !f.head.HasOption(PKG_OPTION_RESET)
    ensures PackageProcess(f.Encode(), ep) ==
            Parsed([], Endpoint(Respond(Clear(ep.link, f.head.sessionId), f.head.sessionId, f.head.packageIndex, PKG_OPTION_ACK),
                                ep.dispatched, ep.delivered, ep.freed + [f.head.sessionId], ep.resets), 0)
  {
    hide Respond, Clear;
    var buf := f.Encode();
    assert buf[..HEAD_SIZE] == EncodeHead(f.head);
    HeadOnBuffer(f, buf);
    assert buf[HEAD_SIZE..] == [];
  }

  lemma {:induction false} WithoutKeepsOthers(pkgs: seq<Pkg>, sid: U32)
    ensures forall p :: p in Without(pkgs, sid) <==> p in pkgs && p.sessionId != sid
  {
    if pkgs != [] {
      WithoutKeepsOthers(pkgs[1..], sid);
      assert pkgs == [pkgs[0]] + pkgs[1..];
    }
  }

  // A package that asks to reset its session is reported and refused: the buffer is emptied, whatever
  // is behind it, and nothing is acknowledged or dispatched.
  lemma ResetIsReported(f: Frame, rest: seq<Byte>, ep: Endpoint)
    requires f.WellFormed() && f.head.HasOption(PKG_OPTION_RESET)
    ensures PackageProcess(f.Encode() + rest, ep) == Parsed([], ep.(resets := ep.resets + [f.head.sessionId]), 0)
  {
    var buf := f.Encode() + rest;
    assert buf[..HEAD_SIZE] == EncodeHead(f.head);
    HeadOnBuffer(f, buf);
  }
}

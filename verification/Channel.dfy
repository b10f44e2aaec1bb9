/** The 4-byte length prefix of src/common/channel.cpp: SendChannel and ReadStream. */
module Channel {
  import opened Bytes
  import opened Framing

  const DWORD_SERIALIZE_SIZE: nat := 4
  const INT_MAX: nat := 0x7FFF_FFFF
  const CHANNEL_BUF_SIZE: nat := 61440

  // ---- SendChannel -------------------------------------------------------------------

  // The prefix and the buffer lie in one allocation whose size is an int. An empty buffer is not sent:
  // copying it asks memcpy_s for a destination of no bytes, which it refuses.
  predicate Sendable(m: seq<Byte>) {
    DWORD_SERIALIZE_SIZE + |m| <= INT_MAX
  }

  function Prefixed(m: seq<Byte>): (s: seq<Byte>)
    requires Sendable(m)
    ensures |s| == DWORD_SERIALIZE_SIZE + |m|
  {
    Be32(|m|) + m
  }

  method SendChannel(bufPtr: seq<Byte>) returns (sent: seq<Byte>)
    requires Sendable(bufPtr)
    ensures sent == if bufPtr == [] then [] else Prefixed(bufPtr)
  {
    var size := |bufPtr|;
    var data := new Byte[DWORD_SERIALIZE_SIZE + size](_ => 0);
    var prefix := Be32(size);
    data[0], data[1], data[2], data[3] := prefix[0], prefix[1], prefix[2], prefix[3];
    if size == 0 {
      return [];
    }
    forall i | 0 <= i < size {
      data[DWORD_SERIALIZE_SIZE + i] := bufPtr[i];
    }
    sent := data[..];
    assert sent == prefix + bufPtr;
  }

  // ---- ReadStream as a value ------------------------------------------------------------

  function SizeOf(s: seq<Byte>): U32
    requires |s| >= DWORD_SERIALIZE_SIZE
  {
    FromBe32(s[..4])
  }

  // The buffers handed to ReadChannel, which is taken to succeed; not ok means the channel is freed.
  function Fetch(s: seq<Byte>): (r: Fetched<seq<Byte>>)
    ensures |r.rest| <= |s|
    decreases |s|
  {
    if |s| <= DWORD_SERIALIZE_SIZE then Fetched([], s, true)
    else
      var size := SizeOf(s);
      if size == 0 || size > INT_MAX then Fetched([], s, false)
      else if |s| - DWORD_SERIALIZE_SIZE < size then Fetched([], s, true)
      else Fetch(s[DWORD_SERIALIZE_SIZE + size..]).After([s[DWORD_SERIALIZE_SIZE..DWORD_SERIALIZE_SIZE + size]])
  }

  // ---- the stream ---------------------------------------------------------------------------

  predicate AllSendable(ms: seq<seq<Byte>>) {
    forall i | 0 <= i < |ms| :: Sendable(ms[i]) && ms[i] != []
  }

  function AllPrefixed(ms: seq<seq<Byte>>): (ss: seq<seq<Byte>>)
    requires AllSendable(ms)
    ensures |ss| == |ms| && NoneEmpty(ss)
    ensures forall i | 0 <= i < |ms| :: ss[i] == Prefixed(ms[i])
  {
    seq(|ms|, i requires 0 <= i < |ms| => Prefixed(ms[i]))
  }

  lemma PrefixOf(m: seq<Byte>, s: seq<Byte>)
    requires Sendable(m) && |s| >= DWORD_SERIALIZE_SIZE && s[..DWORD_SERIALIZE_SIZE] == Be32(|m|)
    ensures SizeOf(s) == |m|
  {
    BigEndian(|m|);
  }

  lemma WholeBuffer(m: seq<Byte>, rest: seq<Byte>)
    requires Sendable(m) && m != []
    ensures Fetch(Prefixed(m) + rest) == Fetch(rest).After([m])
  {
    hide SizeOf;
    var s := Prefixed(m) + rest;
    assert s[..DWORD_SERIALIZE_SIZE] == Be32(|m|);
    PrefixOf(m, s);
    assert s[DWORD_SERIALIZE_SIZE..DWORD_SERIALIZE_SIZE + |m|] == m;
    assert s[DWORD_SERIALIZE_SIZE + |m|..] == rest;
  }

  lemma CutBuffer(m: seq<Byte>, part: seq<Byte>)
    requires Sendable(m) && m != [] && part < Prefixed(m)
    ensures Fetch(part) == Fetched([], part, true)
  {
    hide SizeOf;
    if |part| > DWORD_SERIALIZE_SIZE {
      assert part[..DWORD_SERIALIZE_SIZE] == Be32(|m|);
      PrefixOf(m, part);
    }
  }

  lemma BuffersAreTaken(ms: seq<seq<Byte>>)
    requires AllSendable(ms)
    ensures Takes(Fetch, ms, AllPrefixed(ms))
  {
    hide Prefixed;
    var ss := AllPrefixed(ms);
    forall i, rest | 0 <= i < |ss| ensures Fetch(ss[i] + rest) == Fetch(rest).After([ms[i]]) {
      WholeBuffer(ms[i], rest);
    }
    forall i, part | 0 <= i < |ss| && part < ss[i] ensures Fetch(part) == Fetched([], part, true) {
      CutBuffer(ms[i], part);
    }
  }

  predicate AllFit(ms: seq<seq<Byte>>) {
    forall i | 0 <= i < |ms| :: DWORD_SERIALIZE_SIZE + |ms[i]| <= CHANNEL_BUF_SIZE
  }

  // Whatever pieces the prefixed buffers are read in: those complete so far are handed to ReadChannel,
  // in order, each once, the channel is never given up, and there is room to read on if all fit.
  lemma AnyCutOfTheChannel(ms: seq<seq<Byte>>, pieces: seq<seq<Byte>>)
    requires AllSendable(ms) && Flatten(pieces) <= Flatten(AllPrefixed(ms))
    ensures var r, k := FetchAll(Fetch, [], pieces), Whole(AllPrefixed(ms), |Flatten(pieces)|);
            && r == Fetch(Flatten(pieces))
            && r.ok && r.log == ms[..k]
            && Flatten(AllPrefixed(ms)[..k]) + r.rest == Flatten(pieces)
            && (AllFit(ms) ==> |r.rest| < CHANNEL_BUF_SIZE)
  {
    hide Fetch, Whole, Left, Prefixed, Flatten, Takes;
    BuffersAreTaken(ms);
    AnyPieces(Fetch, ms, AllPrefixed(ms), pieces);
  }

  // A stream of prefixed buffers, empty ones included, arrives as it was sent exactly if none is empty.
  lemma ArrivesIffNoneEmpty(ms: seq<seq<Byte>>)
    requires forall i | 0 <= i < |ms| :: Sendable(ms[i])
    ensures Fetch(Flatten(EvenEmpty(ms))) == Fetched(ms, [], true) <==> forall i | 0 <= i < |ms| :: ms[i] != []
  {
    hide Flatten, Fetch, Whole, Left;
    if forall i | 0 <= i < |ms| :: ms[i] != [] {
      assert EvenEmpty(ms) == AllPrefixed(ms);
      AnyCutOfTheChannel(ms, AllPrefixed(ms));
      WholeOfAll(AllPrefixed(ms));
      assert AllPrefixed(ms)[..|ms|] == AllPrefixed(ms) && ms[..|ms|] == ms;
      assert Fetch(Flatten(AllPrefixed(ms))).rest == [];
    } else if Fetch(Flatten(EvenEmpty(ms))) == Fetched(ms, [], true) {
      var i :| 0 <= i < |ms| && ms[i] == [];
      NothingEmptyIsTaken(Flatten(EvenEmpty(ms)));
    }
  }

  function EvenEmpty(ms: seq<seq<Byte>>): (ss: seq<seq<Byte>>)
    requires forall i | 0 <= i < |ms| :: Sendable(ms[i])
    ensures |ss| == |ms| && forall i | 0 <= i < |ms| :: ss[i] == Prefixed(ms[i])
  {
    seq(|ms|, i requires 0 <= i < |ms| => Prefixed(ms[i]))
  }

  lemma {:induction false} NothingEmptyIsTaken(s: seq<Byte>)
    ensures forall i | 0 <= i < |Fetch(s).log| :: Fetch(s).log[i] != []
    decreases |s|
  {
    hide SizeOf;
    if |s| > DWORD_SERIALIZE_SIZE {
      var size := SizeOf(s);
      if size != 0 && |s| - DWORD_SERIALIZE_SIZE >= size {
        NothingEmptyIsTaken(s[DWORD_SERIALIZE_SIZE + size..]);
      }
    }
  }

  // Buffers in front of a length that is zero or no positive int are handed on; then the channel is to be
  // freed, and the bytes from there on stay.
  lemma {:induction false} BadLengthEnds(ms: seq<seq<Byte>>, bad: seq<Byte>)
    requires AllSendable(ms) && |bad| > 4 && (FromBe32(bad[..4]) == 0 || FromBe32(bad[..4]) > 0x7FFF_FFFF)
    ensures Fetch(Flatten(AllPrefixed(ms)) + bad) == Fetched(ms, bad, false)
    decreases |ms|
  {
    hide FromBe32;
    if ms == [] {
      assert [] + bad == bad;
    } else {
      assert AllPrefixed(ms)[1..] == AllPrefixed(ms[1..]);
      BadLengthEnds(ms[1..], bad);
      WholeBuffer(ms[0], Flatten(AllPrefixed(ms[1..])) + bad);
      Assoc(Prefixed(ms[0]), Flatten(AllPrefixed(ms[1..])), bad);
      assert [ms[0]] + ms[1..] == ms;
    }
  }

  // ---- ReadStream in place ----------------------------------------------------------------------

  // libuv's number on Linux for a read that found no buffer.
  const UV_ENOBUFS := -105

  class HdcChannel {
    const ioBuf: array<Byte>
    var availTailIndex: nat
    var log: seq<seq<Byte>>

    constructor ()
      ensures fresh(ioBuf) && ioBuf.Length == CHANNEL_BUF_SIZE && Valid() && Buffered() == [] && log == []
    {
      ioBuf := new Byte[CHANNEL_BUF_SIZE](_ => 0);
      availTailIndex, log := 0, [];
    }

    predicate Valid()
      reads this
    {
      availTailIndex <= ioBuf.Length
    }

    function Buffered(): seq<Byte>
      reads this, ioBuf
      requires Valid()
    {
      ioBuf[..availTailIndex]
    }

    // `nread` bytes were read behind what was buffered; a negative number is a read error, but for the
    // one that says that there was no room. When the channel is to be freed the buffer keeps the bytes
    // that made no sense.
    method ReadStream(nread: int) returns (needExit: bool)
      requires Valid() && nread <= ioBuf.Length - availTailIndex
      modifies this, ioBuf
      ensures Valid()
      ensures nread <= 0 ==> needExit == (nread < 0 && nread != UV_ENOBUFS)
      ensures nread <= 0 ==> Buffered() == old(Buffered()) && log == old(log)
      ensures nread > 0 ==>
                var s := old(ioBuf[..availTailIndex + nread]);
                needExit == !Fetch(s).ok && log == old(log) + Fetch(s).log && Buffered() == Fetch(s).rest
    {
      hide Fetch, SizeOf;
      if nread == UV_ENOBUFS {
        return false;
      } else if nread == 0 {
        return false;
      } else if nread < 0 {
        return true;
      }
      ghost var s := ioBuf[..availTailIndex + nread];
      needExit := false;
      var indexBuf := 0;
      availTailIndex := availTailIndex + nread;
      assert ioBuf[0..availTailIndex] == s;
      assert old(log) + Fetch(s).log == log + Fetch(s).log;
      while availTailIndex > DWORD_SERIALIZE_SIZE
        invariant 0 <= indexBuf && indexBuf + availTailIndex == |s|
        invariant ioBuf[..|s|] == s && !needExit
        invariant Fetch(s).rest == Fetch(s[indexBuf..]).rest && Fetch(s).ok == Fetch(s[indexBuf..]).ok
        invariant old(log) + Fetch(s).log == log + Fetch(s[indexBuf..]).log
        decreases availTailIndex
        modifies `availTailIndex, `log
      {
        var left := ioBuf[indexBuf..indexBuf + availTailIndex];
        assert left == s[indexBuf..];
        FetchStep(left);
        var size := SizeOf(left);
        if size == 0 || size > INT_MAX {
          needExit := true;
          break;
        }
        if availTailIndex - DWORD_SERIALIZE_SIZE < size {
          break;
        }
        var next := DWORD_SERIALIZE_SIZE + size;
        var m := left[DWORD_SERIALIZE_SIZE..next];
        assert left[next..] == s[indexBuf + next..];
        Assoc(log, [m], Fetch(s[indexBuf + next..]).log);
        log := log + [m];
        availTailIndex := availTailIndex - next;
        indexBuf := indexBuf + next;
      }
      FetchStep(s[indexBuf..]);
      if indexBuf > 0 && availTailIndex > 0 {
        Compact(indexBuf, s);
      }
      assert ioBuf[..availTailIndex] == s[indexBuf..];
    }

    method Compact(indexBuf: nat, ghost s: seq<Byte>)
      requires indexBuf + availTailIndex == |s| <= ioBuf.Length && ioBuf[..|s|] == s
      modifies ioBuf
      ensures ioBuf[..availTailIndex] == s[indexBuf..]
    {
      forall i | 0 <= i < availTailIndex {
        ioBuf[i] := ioBuf[indexBuf + i];
      }
    }
  }

  lemma FetchStep(s: seq<Byte>)
    ensures |s| <= DWORD_SERIALIZE_SIZE ==> Fetch(s) == Fetched([], s, true)
    ensures |s| > DWORD_SERIALIZE_SIZE ==>
              var size := SizeOf(s);
              Fetch(s) ==
              if size == 0 || size > INT_MAX then Fetched([], s, false)
              else if |s| - DWORD_SERIALIZE_SIZE < size then Fetched([], s, true)
              else Fetch(s[DWORD_SERIALIZE_SIZE + size..]).After([s[DWORD_SERIALIZE_SIZE..DWORD_SERIALIZE_SIZE + size]])
  {
    hide SizeOf;
  }
}

/** SendUARTData of src/common/uart.cpp: cutting a buffer into packages. */
module UartSegment {
  import opened Bytes
  import opened UartHead
  import opened UartParser

  const PACKAGE_DATA_MAX_SIZE: nat := MAX_UART_SIZE_IOBUF - HEAD_SIZE

  // The package numbered `index`, before its checksums are filled in.
  function Segment(sid: U32, index: nat, payload: seq<Byte>, last: bool): (f: Frame)
    requires |payload| <= PACKAGE_DATA_MAX_SIZE
    ensures f.Sized()
  {
    Frame(NewHead(sid, if last then PKG_OPTION_TAIL else 0, |payload|, index % TWO32), payload)
  }

  // `index` is the number given out last.
  function Cut(sid: U32, index: nat, data: seq<Byte>): (fs: seq<Frame>)
    ensures forall i | 0 <= i < |fs| :: |fs[i].payload| <= PACKAGE_DATA_MAX_SIZE
    decreases |data|
  {
    if |data| > PACKAGE_DATA_MAX_SIZE then
      [Segment(sid, index + 1, data[..PACKAGE_DATA_MAX_SIZE], false)] + Cut(sid, index + 1, data[PACKAGE_DATA_MAX_SIZE..])
    else
      [Segment(sid, index + 1, data, true)]
  }

  function Payloads(fs: seq<Frame>): (ps: seq<seq<Byte>>)
    ensures |ps| == |fs| && forall i | 0 <= i < |fs| :: ps[i] == fs[i].payload
  {
    seq(|fs|, i requires 0 <= i < |fs| => fs[i].payload)
  }

  // ---- what the cut means --------------------------------------------------------

  lemma {:induction false} PayloadsJoin(sid: U32, index: nat, data: seq<Byte>)
    ensures Flatten(Payloads(Cut(sid, index, data))) == data
    decreases |data|
  {
    var fs := Cut(sid, index, data);
    if |data| > PACKAGE_DATA_MAX_SIZE {
      PayloadsJoin(sid, index + 1, data[PACKAGE_DATA_MAX_SIZE..]);
      assert Payloads(fs)[1..] == Payloads(Cut(sid, index + 1, data[PACKAGE_DATA_MAX_SIZE..]));
    } else {
      assert Payloads(fs) == [data];
      FlattenOne(data);
    }
  }

  // ceil(n / 4072) packages, and one for the empty buffer.
  lemma {:induction false} PackageCount(sid: U32, index: nat, data: seq<Byte>)
    ensures var n := |Cut(sid, index, data)|;
            if data == [] then n == 1
            else (n - 1) * PACKAGE_DATA_MAX_SIZE < |data| <= n * PACKAGE_DATA_MAX_SIZE
    decreases |data|
  {
    if |data| > PACKAGE_DATA_MAX_SIZE {
      PackageCount(sid, index + 1, data[PACKAGE_DATA_MAX_SIZE..]);
    }
  }

  // Head by head: the magic word, the session, consecutive numbers, the size of the payload, TAIL (1) on
  // the last package and no option on the others; all but the last are full.
  lemma {:induction false} PackageShape(sid: U32, index: nat, data: seq<Byte>, i: nat)
    requires i < |Cut(sid, index, data)|
    ensures var fs := Cut(sid, index, data);
            && fs[i].head == Head(0x48, 0x57, if i == |fs| - 1 then 1 else 0, sid, |fs[i].payload|, (index + 1 + i) % TWO32, 0, 0)
            && (i < |fs| - 1 ==> |fs[i].payload| == PACKAGE_DATA_MAX_SIZE)
            && (data != [] ==> fs[i].payload != [])
    decreases |data|
  {
    if i > 0 {
      PackageShape(sid, index + 1, data[PACKAGE_DATA_MAX_SIZE..], i - 1);
    }
  }

  // So it is the package of that number, in one word.
  lemma NumberedPackage(sid: U32, index: nat, data: seq<Byte>, i: nat)
    requires i < |Cut(sid, index, data)|
    ensures var fs := Cut(sid, index, data); fs[i] == Segment(sid, index + 1 + i, fs[i].payload, i == |fs| - 1)
  {
    hide Cut;
    PackageShape(sid, index, data, i);
  }

  // Every package cut is one the peer's parser takes.
  lemma SegmentIsPlain(sid: U32, index: nat, payload: seq<Byte>, last: bool)
    requires |payload| <= PACKAGE_DATA_MAX_SIZE
    ensures Plain(Checked(Segment(sid, index, payload, last)))
    ensures Checked(Segment(sid, index, payload, last)).IsData()
  {
    CheckedIsWellFormed(Segment(sid, index, payload, last));
  }

  // ---- the loop ------------------------------------------------------------------

  // Fills the head and the payload of a package into the send buffer, which keeps the rest of
  // what earlier packages left in it.
  method FillPackage(buf: array<Byte>, f: Frame)
    requires buf.Length == MAX_UART_SIZE_IOBUF
    requires f.Sized() && |f.payload| <= PACKAGE_DATA_MAX_SIZE
    modifies buf
    ensures buf[..HEAD_SIZE + |f.payload|] == f.Encode()
  {
    var head := EncodeHead(f.head);
    forall i | 0 <= i < HEAD_SIZE {
      buf[i] := head[i];
    }
    forall i | 0 <= i < |f.payload| {
      buf[HEAD_SIZE + i] := f.payload[i];
    }
    assert buf[..HEAD_SIZE + |f.payload|] == f.Encode();
  }

  // The package cut next from what is left of the buffer.
  function FirstSegment(sid: U32, index: nat, data: seq<Byte>): (f: Frame)
    ensures f.Sized() && |f.payload| == Min(|data|, PACKAGE_DATA_MAX_SIZE)
  {
    var size := Min(|data|, PACKAGE_DATA_MAX_SIZE);
    Segment(sid, index + 1, data[..size], |data| <= PACKAGE_DATA_MAX_SIZE)
  }

  lemma CutStep(sid: U32, index: nat, data: seq<Byte>, done: seq<Frame>)
    ensures var f := FirstSegment(sid, index, data);
            done + Cut(sid, index, data) ==
            if |data| > PACKAGE_DATA_MAX_SIZE then done + [f] + Cut(sid, index + 1, data[|f.payload|..]) else done + [f]
  {
    if |data| <= PACKAGE_DATA_MAX_SIZE {
      assert data[..|data|] == data;
    } else {
      var f, more := FirstSegment(sid, index, data), Cut(sid, index + 1, data[PACKAGE_DATA_MAX_SIZE..]);
      assert done + ([f] + more) == done + [f] + more;
    }
  }

  // The caller passes an int, so the remaining size never overflows one. The packages are listed
  // in the order they are handed to RequestSendPackage.
  method SendUARTData(sid: U32, packageIndex: U64, data: seq<Byte>)
    returns (pkgs: seq<Frame>, index: U64, offset: nat)
    requires |data| < 0x8000_0000
    ensures pkgs == Cut(sid, packageIndex, data)
    ensures index == (packageIndex + |pkgs|) % TWO64
    ensures offset == |data|
  {
    hide Cut, DecodeFrame;
    var sendDataBuf := new Byte[MAX_UART_SIZE_IOBUF](_ => 0);
    ghost var count: nat, left := packageIndex, data;
    pkgs, index, offset := [], packageIndex, 0;
    while true
      invariant offset <= |data| && (offset < |data| || pkgs == [])
      invariant left == data[offset..]
      invariant count == packageIndex + |pkgs| && index == count % TWO64
      invariant Cut(sid, packageIndex, data) == pkgs + Cut(sid, count, left)
      decreases |data| - offset, |data| == offset
    {
      CutStep(sid, count, left, pkgs);
      WrapTwice(count + 1);
      index := (index + 1) % TWO64;
      var size, option := |data| - offset, PKG_OPTION_TAIL;
      if size > PACKAGE_DATA_MAX_SIZE {
        size, option := PACKAGE_DATA_MAX_SIZE, 0;
      }
      var f := Frame(NewHead(sid, option, size, index % TWO32), data[offset..offset + size]);
      assert f == FirstSegment(sid, count, left) by {
        assert left[..size] == f.payload;
      }
      FillPackage(sendDataBuf, f);
      FrameRoundTrip(f);
      pkgs := pkgs + [DecodeFrame(sendDataBuf[..HEAD_SIZE + size])];
      offset := offset + size;
      left := left[size..];
      count := count + 1;
      if offset == |data| {
        break;
      }
    }
  }

  lemma WrapTwice(n: nat)
    requires n > 0
    ensures ((n - 1) % TWO64 + 1) % TWO64 == n % TWO64
    ensures n % TWO64 % TWO32 == n % TWO32
  {
    assert n == TWO64 * (n / TWO64) + n % TWO64;
    assert TWO64 == TWO32 * TWO32;
    assert n == TWO32 * (TWO32 * (n / TWO64)) + n % TWO64;
    ModAdds(n % TWO64, TWO32 * (n / TWO64));
  }

  lemma ModAdds(r: nat, k: nat)
    ensures (TWO32 * k + r) % TWO32 == r % TWO32
  {
    var q := r / TWO32;
    assert TWO32 * k + r == TWO32 * (k + q) + r % TWO32;
  }
}

/** The 24-byte package head of src/common/uart.h: layout, checksums, queue key. */
module UartHead {
  import opened Bytes

  const HEAD_SIZE: nat := 24
  const MAX_UART_SIZE_IOBUF: nat := 4096
  const FLAG0: Byte := 0x48  // 'H'
  const FLAG1: Byte := 0x57  // 'W'

  const PKG_OPTION_TAIL: nat := 1
  const PKG_OPTION_RESET: nat := 2
  const PKG_OPTION_ACK: nat := 4
  const PKG_OPTION_NAK: nat := 8
  const PKG_OPTION_FREE: nat := 16

  datatype Head = Head(
    flag0: Byte,
    flag1: Byte,
    option: U16,
    sessionId: U32,
    dataSize: U32,
    packageIndex: U32,
    dataCheckSum: U32,
    headCheckSum: U32)
  {
    predicate HasOption(bit: nat)
      requires bit > 0
    {
      (option / bit) % 2 == 1
    }

    predicate IsResponsePackage() {
      HasOption(PKG_OPTION_ACK) || HasOption(PKG_OPTION_NAK)
    }
  }

  // The constructor of the source: magic word set, checksums zero.
  function NewHead(sessionId: U32, option: Byte, dataSize: U32, packageIndex: U32): Head {
    Head(FLAG0, FLAG1, option, sessionId, dataSize, packageIndex, 0, 0)
  }

  // ---- layout -----------------------------------------------------------------

  function EncodeHead(h: Head): (s: seq<Byte>)
    ensures |s| == HEAD_SIZE
  {
    [h.flag0, h.flag1] + Le16(h.option) + Le32(h.sessionId) + Le32(h.dataSize) + Le32(h.packageIndex)
    + Le32(h.dataCheckSum) + Le32(h.headCheckSum)
  }

  function DecodeHead(s: seq<Byte>): Head
    requires |s| >= HEAD_SIZE
  {
    Head(s[0], s[1], FromLe16(s[2..4]), FromLe32(s[4..8]), FromLe32(s[8..12]), FromLe32(s[12..16]),
         FromLe32(s[16..20]), FromLe32(s[20..24]))
  }

  lemma HeadRoundTrip(h: Head, rest: seq<Byte>)
    ensures DecodeHead(EncodeHead(h) + rest) == h
  {
    var s := EncodeHead(h) + rest;
    assert s[2..4] == Le16(h.option);
    assert s[4..8] == Le32(h.sessionId);
    assert s[8..12] == Le32(h.dataSize);
    assert s[12..16] == Le32(h.packageIndex);
    assert s[16..20] == Le32(h.dataCheckSum);
    assert s[20..24] == Le32(h.headCheckSum);
    LittleEndian(h.sessionId);
    LittleEndian(h.dataSize);
    LittleEndian(h.packageIndex);
    LittleEndian(h.dataCheckSum);
    LittleEndian(h.headCheckSum);
  }

  // ---- sums -------------------------------------------------------------------

  function Sum(s: seq<Byte>): nat {
    if s == [] then 0 else Sum(s[..|s| - 1]) + s[|s| - 1]
  }

  // What std::accumulate with an unsigned 32-bit seed returns.
  function Sum32(s: seq<Byte>): U32 {
    Sum(s) % TWO32
  }

  lemma {:induction false} SumBound(s: seq<Byte>)
    ensures Sum(s) <= 255 * |s|
  {
    if s != [] {
      SumBound(s[..|s| - 1]);
    }
  }

  lemma {:induction false} SumReplace(s: seq<Byte>, i: nat, b: Byte)
    requires i < |s|
    ensures Sum(s[i := b]) == Sum(s) - s[i] + b
  {
    var n := |s| - 1;
    if i == n {
      assert s[i := b][..n] == s[..n];
    } else {
      assert s[i := b][..n] == s[..n][i := b];
      SumReplace(s[..n], i, b);
    }
  }

  method Accumulate(s: seq<Byte>) returns (sum: U32)
    ensures sum == Sum32(s)
  {
    hide Sum32;
    sum := 0;
    NoSum();
    for i := 0 to |s|
      invariant sum == Sum32(s[..i])
    {
      SumStep(s, i);
      sum := (sum + s[i]) % TWO32;
    }
    assert s[..|s|] == s;
  }

  lemma NoSum()
    ensures Sum32([]) == 0
  {
  }

  lemma SumStep(s: seq<Byte>, i: nat)
    requires i < |s|
    ensures Sum32(s[..i + 1]) == (Sum32(s[..i]) + s[i]) % TWO32
  {
    assert s[..i + 1][..i] == s[..i];
    AddThenWrap(Sum(s[..i]), s[i]);
  }

  lemma AddThenWrap(a: nat, b: nat)
    ensures (a % TWO32 + b) % TWO32 == (a + b) % TWO32
  {
    var q, r := a / TWO32, a % TWO32;
    assert a + b == TWO32 * q + (r + b);
    var q1 := (r + b) / TWO32;
    assert a + b == TWO32 * (q + q1) + (r + b) % TWO32;
  }

  // The additions never wrap for a package that fits the device buffer.
  lemma SumsNeverWrap(s: seq<Byte>)
    requires |s| <= MAX_UART_SIZE_IOBUF
    ensures Sum32(s) == Sum(s)
  {
    SumBound(s);
  }

  // Replacing one byte always changes the 32-bit sum, wrapped or not.
  lemma OneByteMovesSum(s: seq<Byte>, i: nat, b: Byte)
    requires i < |s| && b != s[i]
    ensures Sum32(s[i := b]) != Sum32(s)
  {
    SumReplace(s, i, b);
  }

  // ---- checksums of a package held in a buffer --------------------------------

  function DataSizeOf(p: seq<Byte>): U32
    requires |p| >= HEAD_SIZE
  {
    FromLe32(p[8..12])
  }

  predicate ValidateHead(p: seq<Byte>)
    requires |p| >= HEAD_SIZE
  {
    FromLe32(p[20..24]) == Sum32(p[..20])
  }

  predicate ValidateData(p: seq<Byte>)
    requires |p| >= HEAD_SIZE && |p| >= HEAD_SIZE + DataSizeOf(p)
  {
    DataSizeOf(p) == 0 || FromLe32(p[16..20]) == Sum32(p[24..24 + DataSizeOf(p)])
  }

  function WithCheckSums(p: seq<Byte>): (q: seq<Byte>)
    requires |p| >= HEAD_SIZE && |p| >= HEAD_SIZE + DataSizeOf(p)
    ensures |q| == |p|
  {
    var n := DataSizeOf(p);
    var p1 := if n != 0 then p[..16] + Le32(Sum32(p[24..24 + n])) + p[20..] else p;
    p1[..20] + Le32(Sum32(p1[..20])) + p1[24..]
  }

  // Both sums written by UpdateCheckSum pass both checks, and nothing but the two sum fields moves.
  lemma UpdatedValidates(p: seq<Byte>)
    requires |p| >= HEAD_SIZE && |p| >= HEAD_SIZE + DataSizeOf(p)
    ensures var q := WithCheckSums(p);
            && q[..16] == p[..16] && q[24..] == p[24..]
            && DataSizeOf(q) == DataSizeOf(p)
            && ValidateHead(q) && ValidateData(q)
  {
    var n := DataSizeOf(p);
    var p1 := if n != 0 then p[..16] + Le32(Sum32(p[24..24 + n])) + p[20..] else p;
    var q := WithCheckSums(p);
    assert q[..20] == p1[..20];
    assert q[..16] == p1[..16] == p[..16];
    assert q[24..] == p1[24..] == p[24..];
    assert q[8..12] == q[..16][8..12] == p[..16][8..12] == p[8..12];
    assert q[20..24] == Le32(Sum32(p1[..20]));
    LittleEndian(Sum32(p1[..20]));
    if n != 0 {
      assert q[16..20] == q[..20][16..20] == p1[16..20] == Le32(Sum32(p[24..24 + n]));
      assert q[24..24 + n] == q[24..][..n] == p[24..][..n] == p[24..24 + n];
      LittleEndian(Sum32(p[24..24 + n]));
    }
  }

  // UartHead::UpdateCheckSum, in place on the package buffer.
  method UpdateCheckSum(p: array<Byte>)
    requires p.Length >= HEAD_SIZE && p.Length >= HEAD_SIZE + DataSizeOf(p[..])
    modifies p
    ensures p[..] == WithCheckSums(old(p[..]))
  {
    ghost var was := p[..];
    var n := DataSizeOf(p[..]);
    if n != 0 {
      var d := Accumulate(p[24..24 + n]);
      var f := Le32(d);
      p[16], p[17], p[18], p[19] := f[0], f[1], f[2], f[3];
      assert p[..] == was[..16] + Le32(Sum32(was[24..24 + n])) + was[20..];
    }
    ghost var mid := p[..];
    assert p[..20] == mid[..20];
    var h := Accumulate(p[..20]);
    var g := Le32(h);
    p[20], p[21], p[22], p[23] := g[0], g[1], g[2], g[3];
    assert p[..20] == mid[..20] && p[20..24] == g && p[24..] == mid[24..];
    assert p[..] == p[..20] + p[20..24] + p[24..];
  }

  // ---- whole packages ---------------------------------------------------------

  // A package as the queue holds it: the decoded head and the payload behind it.
  datatype Frame = Frame(head: Head, payload: seq<Byte>) {
    function Encode(): (s: seq<Byte>)
      ensures |s| == HEAD_SIZE + |payload|
    {
      EncodeHead(head) + payload
    }

    predicate Sized() {
      head.dataSize == |payload|
    }

    predicate IsData() {
      !head.IsResponsePackage()
    }

    // What the receiving parser accepts: magic word, both checksums, at most one device buffer.
    predicate WellFormed() {
      && head.flag0 == FLAG0 && head.flag1 == FLAG1
      && Sized()
      && HEAD_SIZE + |payload| <= MAX_UART_SIZE_IOBUF
      && head.headCheckSum == Sum32(EncodeHead(head)[..20])
      && (payload == [] || head.dataCheckSum == Sum32(payload))
    }
  }

  function DecodeFrame(p: seq<Byte>): Frame
    requires |p| >= HEAD_SIZE && |p| == HEAD_SIZE + DataSizeOf(p)
  {
    Frame(DecodeHead(p), p[HEAD_SIZE..])
  }

  // UpdateCheckSum seen on the decoded package.
  function Checked(f: Frame): (g: Frame)
    requires f.Sized()
    ensures g.payload == f.payload && g.Sized()
  {
    var h := if f.payload != [] then f.head.(dataCheckSum := Sum32(f.payload)) else f.head;
    Frame(h.(headCheckSum := Sum32(EncodeHead(h)[..20])), f.payload)
  }

  lemma FrameRoundTrip(f: Frame)
    requires f.Sized()
    ensures DataSizeOf(f.Encode()) == |f.payload|
    ensures DecodeFrame(f.Encode()) == f
  {
    HeadRoundTrip(f.head, f.payload);
    assert f.Encode()[HEAD_SIZE..] == f.payload;
  }

  lemma {:induction false} EncodeHeadBack(p: seq<Byte>)
    requires |p| == HEAD_SIZE
    ensures EncodeHead(DecodeHead(p)) == p
  {
    assert Le16(FromLe16(p[2..4])) == p[2..4];
    LittleEndianBack(p[4..8]);
    LittleEndianBack(p[8..12]);
    LittleEndianBack(p[12..16]);
    LittleEndianBack(p[16..20]);
    LittleEndianBack(p[20..24]);
    assert p == [p[0], p[1]] + p[2..4] + p[4..8] + p[8..12] + p[12..16] + p[16..20] + p[20..24];
  }

  // The head checksum does not cover itself.
  lemma HeadSumField(h: Head, c: U32)
    ensures EncodeHead(h.(headCheckSum := c)) == EncodeHead(h)[..20] + Le32(c)
  {
  }

  lemma CheckedIsUpdateCheckSum(f: Frame)
    requires f.Sized()
    ensures DataSizeOf(f.Encode()) == |f.payload|
    ensures WithCheckSums(f.Encode()) == Checked(f).Encode()
  {
    FrameRoundTrip(f);
    var p := f.Encode();
    var h := if f.payload != [] then f.head.(dataCheckSum := Sum32(f.payload)) else f.head;
    var p1 := EncodeHead(h) + f.payload;
    assert p[24..24 + |f.payload|] == f.payload;
    if f.payload != [] {
      assert p1 == p[..16] + Le32(Sum32(f.payload)) + p[20..];
    }
    assert p1[..20] == EncodeHead(h)[..20];
    HeadSumField(h, Sum32(p1[..20]));
    assert WithCheckSums(p) == p1[..20] + Le32(Sum32(p1[..20])) + p1[24..];
    assert p1[24..] == f.payload;
  }

  lemma CheckedIsWellFormed(f: Frame)
    requires f.Sized() && f.head.flag0 == FLAG0 && f.head.flag1 == FLAG1
    requires HEAD_SIZE + |f.payload| <= MAX_UART_SIZE_IOBUF
    ensures Checked(f).WellFormed()
  {
    var h := if f.payload != [] then f.head.(dataCheckSum := Sum32(f.payload)) else f.head;
    HeadSumField(h, Sum32(EncodeHead(h)[..20]));
    assert EncodeHead(Checked(f).head)[..20] == EncodeHead(h)[..20];
  }

  // ---- the key a package is queued under --------------------------------------

  function Digit(n: nat): char
    requires n < 10
  {
    '0' + n as char
  }

  function Decimal(n: nat): (s: string)
    ensures s != [] && forall i | 0 <= i < |s| :: '0' <= s[i] <= '9'
  {
    if n < 10 then [Digit(n)] else Decimal(n / 10) + [Digit(n % 10)]
  }

  function ToPkgIdentityString(response: bool, sessionId: U32, packageIndex: U32): string {
    (if response then "R-" else "") + "Id:" + Decimal(sessionId) + "pkgIdx:" + Decimal(packageIndex)
  }

  lemma {:induction false} DecimalInjective(m: nat, n: nat)
    requires Decimal(m) == Decimal(n)
    ensures m == n
    decreases m + n
  {
    var s, t := Decimal(m), Decimal(n);
    assert s[|s| - 1] == Digit(m % 10) && t[|t| - 1] == Digit(n % 10);
    if m >= 10 && n >= 10 {
      assert s[..|s| - 1] == Decimal(m / 10) && t[..|t| - 1] == Decimal(n / 10);
      DecimalInjective(m / 10, n / 10);
    }
  }

  // A run of digits is cut off by the first character that is not one.
  lemma DigitsEndAt(a: string, b: string, x: string, y: string, stop: char)
    requires forall i | 0 <= i < |a| :: '0' <= a[i] <= '9'
    requires forall i | 0 <= i < |b| :: '0' <= b[i] <= '9'
    requires stop > '9'
    requires a + [stop] + x == b + [stop] + y
    ensures a == b && x == y
  {
    var s, t := a + [stop] + x, b + [stop] + y;
    assert s[|a|] == stop && t[|b|] == stop;
    assert forall i | 0 <= i < |a| :: s[i] == a[i];
    assert forall i | 0 <= i < |b| :: t[i] == b[i];
    assert a == s[..|a|] && b == t[..|b|];
    assert x == s[|a| + 1..] && y == t[|b| + 1..];
  }

  // What follows "Id:" and the 'p' of "pkgIdx:" in a key.
  function KeyTail(packageIndex: U32): string {
    "kgIdx:" + Decimal(packageIndex)
  }

  lemma KeyShape(response: bool, sessionId: U32, packageIndex: U32)
    ensures var k := ToPkgIdentityString(response, sessionId, packageIndex);
            var cut := if response then 5 else 3;
            && |k| > cut
            && k[0] == (if response then 'R' else 'I')
            && k[cut..] == Decimal(sessionId) + ['p'] + KeyTail(packageIndex)
  {
    hide Decimal;
    var k, rest := ToPkgIdentityString(response, sessionId, packageIndex), Decimal(sessionId) + ['p'] + KeyTail(packageIndex);
    if response {
      assert k == "R-Id:" + rest;
    } else {
      assert k == "Id:" + rest;
    }
  }

  // Two keys are the same string only for the same (response, session, index).
  lemma KeyInjective(r1: bool, s1: U32, i1: U32, r2: bool, s2: U32, i2: U32)
    ensures ToPkgIdentityString(r1, s1, i1) == ToPkgIdentityString(r2, s2, i2) <==> r1 == r2 && s1 == s2 && i1 == i2
  {
    if ToPkgIdentityString(r1, s1, i1) == ToPkgIdentityString(r2, s2, i2) {
      KeyShape(r1, s1, i1);
      KeyShape(r2, s2, i2);
      DigitsEndAt(Decimal(s1), Decimal(s2), KeyTail(i1), KeyTail(i2), 'p');
      assert KeyTail(i1)[6..] == Decimal(i1) && KeyTail(i2)[6..] == Decimal(i2);
      DecimalInjective(s1, s2);
      DecimalInjective(i1, i2);
    }
  }
}

/** Numbers on the wire: the varint, zigzag and fixed coding of src/common/serial_struct_define.h. */
module SerialWire {
  import opened Bytes

  // ---- varints ------------------------------------------------------------------

  function Varint(v: nat): (s: seq<Byte>)
    ensures s != []
  {
    if v < 128 then [v] else [v % 128 + 128] + Varint(v / 128)
  }

  function Pow128(c: nat): (p: nat)
    ensures p > 0
  {
    if c == 0 then 1 else 128 * Pow128(c - 1)
  }

  datatype ReadNum = ReadNum(ok: bool, value: nat, rest: seq<Byte>)

  // value |= digit << shift, in the width of the value.
  function AddDigit(acc: nat, digit: nat, weight: nat, modulus: nat): (r: nat)
    requires modulus > 0
    ensures r < modulus
  {
    (acc + digit * weight) % modulus
  }

  // At most `left` more bytes make a number below `modulus`, the next seven bits counting `weight`
  // each; bits shifted out at the top are lost.
  function ReadVarintFrom(s: seq<Byte>, left: nat, weight: nat, modulus: nat, acc: nat): (r: ReadNum)
    requires modulus > 0
    ensures |r.rest| <= |s| && (r.ok ==> |r.rest| < |s|)
    ensures acc < modulus ==> r.value < modulus
    ensures r.rest == s[|s| - |r.rest|..]
    decreases |s|
  {
    if left == 0 || s == [] then ReadNum(false, acc, s)
    else
      var acc1 := AddDigit(acc, s[0] % 128, weight, modulus);
      if s[0] < 128 then ReadNum(true, acc1, s[1..]) else ReadVarintFrom(s[1..], left - 1, 128 * weight, modulus, acc1)
  }

  function ReadVarint32(s: seq<Byte>): ReadNum {
    ReadVarintFrom(s, 5, 1, TWO32, 0)
  }

  function ReadVarint64(s: seq<Byte>): ReadNum {
    ReadVarintFrom(s, 10, 1, TWO64, 0)
  }

  lemma {:induction false} VarintLength(v: nat, n: nat)
    requires n > 0 && v < Pow128(n)
    ensures |Varint(v)| <= n
    decreases n
  {
    if v >= 128 {
      assert Pow128(1) == 128;
      VarintLength(v / 128, n - 1);
    }
  }

  lemma VarintFits(v: nat)
    ensures v < TWO32 ==> |Varint(v)| <= 5
    ensures v < TWO64 ==> |Varint(v)| <= 10
  {
    assert Pow128(5) == 128 * 128 * 128 * 128 * 128;
    assert Pow128(10) == 128 * 128 * 128 * 128 * 128 * Pow128(5);
    if v < TWO32 {
      VarintLength(v, 5);
    }
    if v < TWO64 {
      VarintLength(v, 10);
    }
  }

  lemma SplitOff(v: nat, p: nat)
    ensures v * p == (v % 128) * p + (v / 128) * (128 * p)
    ensures (v / 128) * (128 * p) >= 0 && (v % 128) * p >= 0
  {
    var q, r := v / 128, v % 128;
    assert v == 128 * q + r;
    assert (128 * q + r) * p == (128 * q) * p + r * p;
    assert (128 * q) * p == q * (128 * p);
  }

  lemma SmallModulo(x: nat, m: nat)
    requires x < m
    ensures x % m == x
  {
  }

  function Times(v: nat, weight: nat): nat {
    v * weight
  }

  // Taking the low seven bits off and putting the rest one step higher.
  lemma Digits(v: nat, p: nat, acc: nat, modulus: nat)
    requires modulus > 0 && acc + Times(v, p) < modulus
    ensures AddDigit(acc, v % 128, p, modulus) + Times(v / 128, 128 * p) == acc + Times(v, p)
    ensures v < 128 ==> Times(v / 128, 128 * p) == 0
  {
    SplitOff(v, p);
    SmallModulo(acc + (v % 128) * p, modulus);
  }

  lemma ReadOneByte(d: Byte, tail: seq<Byte>, left: nat, weight: nat, modulus: nat, acc: nat)
    requires left > 0 && modulus > 0
    ensures ReadVarintFrom([d] + tail, left, weight, modulus, acc) ==
            if d < 128 then ReadNum(true, AddDigit(acc, d, weight, modulus), tail)
            else ReadVarintFrom(tail, left - 1, 128 * weight, modulus, AddDigit(acc, d - 128, weight, modulus))
  {
    hide AddDigit;
    assert ([d] + tail)[1..] == tail;
  }

  lemma {:induction false} ReadBackFrom(v: nat, rest: seq<Byte>, left: nat, weight: nat, modulus: nat, acc: nat)
    requires modulus > 0 && acc + Times(v, weight) < modulus
    requires |Varint(v)| <= left
    ensures ReadVarintFrom(Varint(v) + rest, left, weight, modulus, acc) == ReadNum(true, acc + Times(v, weight), rest)
    decreases v
  {
    hide AddDigit, Times, ReadVarintFrom;
    Digits(v, weight, acc, modulus);
    if v < 128 {
      ReadOneByte(v, rest, left, weight, modulus, acc);
    } else {
      var d: Byte, tail := v % 128 + 128, Varint(v / 128);
      assert Varint(v) == [d] + tail;
      Assoc([d], tail, rest);
      ReadOneByte(d, tail + rest, left, weight, modulus, acc);
      ReadBackFrom(v / 128, rest, left - 1, 128 * weight, modulus, AddDigit(acc, d - 128, weight, modulus));
    }
  }

  lemma ReadBack32(v: nat, rest: seq<Byte>)
    requires v < TWO32
    ensures ReadVarint32(Varint(v) + rest) == ReadNum(true, v, rest)
  {
    VarintFits(v);
    ReadBackFrom(v, rest, 5, 1, TWO32, 0);
  }

  lemma ReadBack64(v: nat, rest: seq<Byte>)
    requires v < TWO64
    ensures ReadVarint64(Varint(v) + rest) == ReadNum(true, v, rest)
  {
    VarintFits(v);
    ReadBackFrom(v, rest, 10, 1, TWO64, 0);
  }

  // WriteVarint(uint32_t, Writer&): fills a 5-byte array and writes the part used.
  method WriteVarint32(value: U32) returns (bytes: seq<Byte>)
    ensures bytes == Varint(value)
  {
    bytes := WriteVarintN(value, 5);
  }

  method WriteVarint64(value: U64) returns (bytes: seq<Byte>)
    ensures bytes == Varint(value)
  {
    bytes := WriteVarintN(value, 10);
  }

  method WriteVarintN(number: nat, max: nat) returns (bytes: seq<Byte>)
    requires (max == 5 && number < TWO32) || (max == 10 && number < TWO64)
    ensures bytes == Varint(number)
  {
    hide Varint;
    VarintFits(number);
    var b := new Byte[max](_ => 0);
    var value := number;
    for i := 0 to max
      invariant b[..i] + Varint(value) == Varint(number)
    {
      ghost var done := b[..i];
      VarintStep(value, done);
      b[i] := value % 128;
      value := value / 128;
      if value == 0 {
        assert b[..i + 1] == done + [b[i]];
        return b[..i + 1];
      }
      b[i] := b[i] + 128;
      assert b[..i + 1] == done + [b[i]];
    }
    assert false;
  }

  lemma VarintStep(v: nat, done: seq<Byte>)
    ensures done + Varint(v) ==
            if v / 128 == 0 then done + [v % 128] else done + [v % 128 + 128] + Varint(v / 128)
  {
    if v >= 128 {
      Assoc(done, [v % 128 + 128], Varint(v / 128));
    }
  }

  // ---- fixed width --------------------------------------------------------------

  function Le64(n: U64): (s: seq<Byte>)
    ensures |s| == 8
  {
    Le32(n % TWO32) + Le32(n / TWO32)
  }

  function FromLe64(s: seq<Byte>): U64
    requires |s| == 8
  {
    (FromLe32(s[..4]) as int) + TWO32 * (FromLe32(s[4..]) as int)
  }

  lemma LittleEndian64(n: U64)
    ensures FromLe64(Le64(n)) == n
  {
    assert Le64(n)[..4] == Le32(n % TWO32);
    assert Le64(n)[4..] == Le32(n / TWO32);
    LittleEndian(n % TWO32);
    LittleEndian(n / TWO32);
  }

  // ---- the kinds of number a field can hold ----------------------------------------

  // The C++ member type with its flags: plain, zigzag (s) and fixed (f).
  datatype Scalar = U32T | U64T | I32T | I64T | S32T | S64T | F32T | F64T | SF32T | SF64T | BoolT | U8T | U16T {
    predicate Wide() {
      U64T? || I64T? || S64T? || F64T? || SF64T?
    }

    predicate Fixed() {
      F32T? || F64T? || SF32T? || SF64T?
    }

    function Modulus(): nat {
      if Wide() then TWO64 else TWO32
    }

    predicate InRange(v: int) {
      match this
      case U8T => 0 <= v < 256
      case U16T => 0 <= v < 0x1_0000
      case BoolT => 0 <= v <= 1
      case U32T => 0 <= v < TWO32
      case F32T => 0 <= v < TWO32
      case U64T => 0 <= v < TWO64
      case F64T => 0 <= v < TWO64
      case I32T => -0x8000_0000 <= v < 0x8000_0000
      case S32T => -0x8000_0000 <= v < 0x8000_0000
      case SF32T => -0x8000_0000 <= v < 0x8000_0000
      case I64T => -0x8000_0000_0000_0000 <= v < 0x8000_0000_0000_0000
      case S64T => -0x8000_0000_0000_0000 <= v < 0x8000_0000_0000_0000
      case SF64T => -0x8000_0000_0000_0000 <= v < 0x8000_0000_0000_0000
    }
  }

  function Zigzag(v: int): nat {
    if v >= 0 then 2 * v else -2 * v - 1
  }

  function Unzigzag(n: nat): int {
    if n % 2 == 0 then n / 2 else -(n / 2) - 1
  }

  // The unsigned number that goes on the wire.
  function ToWire(sc: Scalar, v: int): (n: nat)
    requires sc.InRange(v)
    ensures n < sc.Modulus()
  {
    if sc.S32T? || sc.S64T? then Zigzag(v) else v % sc.Modulus()
  }

  // The value a member gets from the number read.
  function FromWire(sc: Scalar, n: nat): (v: int)
    requires n < sc.Modulus()
    ensures sc.InRange(v)
  {
    match sc
    case U8T => n % 256
    case U16T => n % 0x1_0000
    case BoolT => if n == 0 then 0 else 1
    case S32T => Unzigzag(n)
    case S64T => Unzigzag(n)
    case I32T => if n < 0x8000_0000 then n else n - TWO32
    case SF32T => if n < 0x8000_0000 then n else n - TWO32
    case I64T => if n < 0x8000_0000_0000_0000 then n else n - TWO64
    case SF64T => if n < 0x8000_0000_0000_0000 then n else n - TWO64
    case _ => n
  }

  lemma WireRoundTrip(sc: Scalar, v: int)
    requires sc.InRange(v)
    ensures FromWire(sc, ToWire(sc, v)) == v
  {
    if sc.S32T? || sc.S64T? {
      assert Unzigzag(Zigzag(v)) == v;
    } else {
      Wrapped(v, sc.Modulus());
    }
  }

  lemma Wrapped(v: int, m: int)
    requires m > 0 && -m <= v < m
    ensures v % m == if v >= 0 then v else v + m
  {
    if v < 0 {
      assert v == m * -1 + (v + m);
    }
  }

  // SerializePacked: the bare number.
  function EncodeScalar(sc: Scalar, v: int): (s: seq<Byte>)
    requires sc.InRange(v)
    ensures s != []
  {
    var n := ToWire(sc, v);
    if !sc.Fixed() then Varint(n) else if sc.Wide() then Le64(n) else Le32(n)
  }

  // ReadFixed: at most as many bytes as are there.
  function ReadFixed(s: seq<Byte>, wide: bool): (r: ReadNum)
    ensures r.value < (if wide then TWO64 else TWO32)
    ensures |r.rest| <= |s| && (r.ok ==> |r.rest| < |s|)
    ensures r.rest == s[|s| - |r.rest|..]
  {
    var w := if wide then 8 else 4;
    if |s| < w then ReadNum(false, 0, [])
    else ReadNum(true, if wide then FromLe64(s[..8]) else FromLe32(s[..4]), s[w..])
  }

  function ReadScalar(sc: Scalar, s: seq<Byte>): (r: ReadNum)
    ensures r.value < sc.Modulus()
    ensures |r.rest| <= |s| && (r.ok ==> |r.rest| < |s|)
    ensures r.rest == s[|s| - |r.rest|..]
  {
    if sc.Fixed() then ReadFixed(s, sc.Wide()) else if sc.Wide() then ReadVarint64(s) else ReadVarint32(s)
  }

  lemma ScalarRoundTrip(sc: Scalar, v: int, rest: seq<Byte>)
    requires sc.InRange(v)
    ensures var r := ReadScalar(sc, EncodeScalar(sc, v) + rest);
            r.ok && FromWire(sc, r.value) == v && r.rest == rest
  {
    WireRoundTrip(sc, v);
    var n := ToWire(sc, v);
    var s := EncodeScalar(sc, v) + rest;
    if sc.Fixed() {
      if sc.Wide() {
        LittleEndian64(n);
        assert s[..8] == Le64(n) && s[8..] == rest;
      } else {
        LittleEndian(n);
        assert s[..4] == Le32(n) && s[4..] == rest;
      }
    } else if sc.Wide() {
      ReadBack64(n, rest);
    } else {
      ReadBack32(n, rest);
    }
  }
}

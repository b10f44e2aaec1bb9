/** Bytes, machine integers and the byte orders used on the wire. */
module Bytes {

  type Byte = n: int | 0 <= n < 256
  type U16 = n: int | 0 <= n < 0x1_0000
  type U32 = n: int | 0 <= n < 0x1_0000_0000
  type U64 = n: int | 0 <= n < 0x1_0000_0000_0000_0000

  const TWO31: int := 0x8000_0000
  const TWO32: int := 0x1_0000_0000
  const TWO64: int := 0x1_0000_0000_0000_0000

  datatype Option<+T> = None | Some(value: T)

  function Min(a: int, b: int): int {
    if a < b then a else b
  }

  // ---- little and big endian -------------------------------------------------

  function Le16(n: U16): (s: seq<Byte>)
    ensures |s| == 2
  {
    [n % 256, n / 256]
  }

  function FromLe16(s: seq<Byte>): U16
    requires |s| == 2
  {
    (s[0] as int) + 256 * (s[1] as int)
  }

  function Le32(n: U32): (s: seq<Byte>)
    ensures |s| == 4
  {
    Le16(n % 0x1_0000) + Le16(n / 0x1_0000)
  }

  function FromLe32(s: seq<Byte>): U32
    requires |s| == 4
  {
    (FromLe16(s[..2]) as int) + 0x1_0000 * (FromLe16(s[2..]) as int)
  }

  function Be16(n: U16): (s: seq<Byte>)
    ensures |s| == 2
  {
    [n / 256, n % 256]
  }

  function FromBe16(s: seq<Byte>): U16
    requires |s| == 2
  {
    256 * (s[0] as int) + (s[1] as int)
  }

  function Be32(n: U32): (s: seq<Byte>)
    ensures |s| == 4
  {
    Be16(n / 0x1_0000) + Be16(n % 0x1_0000)
  }

  function FromBe32(s: seq<Byte>): U32
    requires |s| == 4
  {
    0x1_0000 * (FromBe16(s[..2]) as int) + (FromBe16(s[2..]) as int)
  }

  lemma LittleEndian(n: U32)
    ensures FromLe32(Le32(n)) == n
  {
    assert Le32(n)[..2] == Le16(n % 0x1_0000);
    assert Le32(n)[2..] == Le16(n / 0x1_0000);
  }

  lemma LittleEndianBack(s: seq<Byte>)
    requires |s| == 4
    ensures Le32(FromLe32(s)) == s
  {
    hide Le16, FromLe16;
    Le16Back(s[..2]);
    Le16Back(s[2..]);
    Halves(FromLe16(s[..2]), FromLe16(s[2..]));
    assert s == s[..2] + s[2..];
  }

  lemma Le16Back(s: seq<Byte>)
    requires |s| == 2
    ensures Le16(FromLe16(s)) == s
  {
  }

  lemma Halves(low: U16, high: U16)
    ensures (low as int + 0x1_0000 * (high as int)) % 0x1_0000 == low
    ensures (low as int + 0x1_0000 * (high as int)) / 0x1_0000 == high
  {
  }

  lemma BigEndian(n: U32)
    ensures FromBe32(Be32(n)) == n
  {
    assert Be32(n)[..2] == Be16(n / 0x1_0000);
    assert Be32(n)[2..] == Be16(n % 0x1_0000);
  }

  // ---- sequences of sequences -------------------------------------------------

  function Flatten<T>(ss: seq<seq<T>>): seq<T> {
    if ss == [] then [] else ss[0] + Flatten(ss[1..])
  }

  lemma {:induction false} FlattenAppend<T>(xs: seq<seq<T>>, ys: seq<seq<T>>)
    ensures Flatten(xs + ys) == Flatten(xs) + Flatten(ys)
  {
    if xs == [] {
      assert xs + ys == ys;
    } else {
      assert (xs + ys)[1..] == xs[1..] + ys;
      FlattenAppend(xs[1..], ys);
    }
  }

  lemma FlattenOne<T>(x: seq<T>)
    ensures Flatten([x]) == x
  {
    assert [x][1..] == [];
  }

  // Looking at, moving past, erasing and replacing the element an index has come to.
  lemma AtCursor<T>(s: seq<T>, i: nat, x: T)
    requires i < |s|
    ensures s[i..] == [s[i]] + s[i + 1..] && s[i..][1..] == s[i + 1..]
    ensures s[..i + 1] == s[..i] + [s[i]] && s == s[..i] + ([s[i]] + s[i + 1..])
    ensures var t := s[..i] + s[i + 1..]; t[..i] == s[..i] && t[i..] == s[i + 1..]
    ensures var t := s[i := x];
            t[..i + 1] == s[..i] + [x] && t[i + 1..] == s[i + 1..] && t == s[..i] + ([x] + s[i + 1..])
  {
  }

  lemma Assoc<T>(a: seq<T>, b: seq<T>, c: seq<T>)
    ensures a + (b + c) == a + b + c
  {
  }

  lemma SamePrefix<T>(x: seq<T>, y: seq<T>, z: seq<T>)
    requires x + y == x + z
    ensures y == z
  {
    assert y == (x + y)[|x|..] && z == (x + z)[|x|..];
  }
}

/** What the parser of src/common/serial_struct_define.h makes of records that are foreign, mistyped or cut short. */
module SerialBroken {
  import opened Bytes
  import opened SerialWire
  import opened SerialSchema
  import opened SerialRead
  import opened SerialRoundTrip

  // ---- foreign and mistyped records ------------------------------------------------------------

  // The wire type each kind of member asks for: 0 a varint, 1 eight bytes, 2 a length, 5 four bytes.
  function Asked(ty: FieldType): nat {
    match ty
    case One(sc) =>
      if sc == F64T || sc == SF64T then 1 else if sc == F32T || sc == SF32T then 5 else 0
    case _ => 2
  }

  // Any other leaves the member and the reader alone.
  lemma MistypedIsLeft(f: Field, was: Value, wireType: nat, s: seq<Byte>)
    requires Has(f, was) && wireType != Asked(f.ty)
    ensures ReadField(f, was, wireType, s) == Got(false, was, s)
  {
  }

  // A record that no member takes is not skipped: what follows its tag is read as the next record.
  lemma ForeignIsNotSkipped(fields: seq<Field>, vs: seq<Value>, tag: nat, wireType: nat, rest: seq<Byte>)
    requires HasAll(fields, vs) && 1 <= tag < 0x2000_0000 && wireType < 8
    requires forall i | 0 <= i < |fields| :: fields[i].tag != tag
    ensures ReadMessage(fields, vs, TagBytes(tag, wireType) + rest) == ReadMessage(fields, vs, rest)
  {
    hide Visit, ReadVarint32, TagBytes, ReadMessage, HasAll;
    TagRead(tag, wireType, rest);
    RecordStep(fields, vs, tag, wireType, TagBytes(tag, wireType) + rest, rest);
    VisitMiss(fields, vs, tag, wireType, rest);
  }

  lemma MistypedIsNotSkipped(fields: seq<Field>, vs: seq<Value>, i: nat, wireType: nat, rest: seq<Byte>)
    requires HasAll(fields, vs) && |vs| == |fields| && TagsOk(fields) && i < |fields| && Has(fields[i], vs[i])
    requires wireType < 8 && wireType != Asked(fields[i].ty)
    ensures ReadMessage(fields, vs, TagBytes(fields[i].tag, wireType) + rest) == ReadMessage(fields, vs, rest)
  {
    hide Visit, ReadVarint32, TagBytes, ReadMessage, HasAll, ReadField;
    TagRead(fields[i].tag, wireType, rest);
    RecordStep(fields, vs, fields[i].tag, wireType, TagBytes(fields[i].tag, wireType) + rest, rest);
    VisitHit(fields, vs, i, wireType, rest);
    MistypedIsLeft(fields[i], vs[i], wireType, rest);
    assert vs[i := vs[i]] == vs;
  }

  // Members that share a tag read one after the other, each behind what the one before has read.
  lemma SharedTag(f: Field, g: Field, x: Value, y: Value, wireType: nat, s: seq<Byte>)
    requires f.tag == g.tag && Has(f, x) && Has(g, y) && HasAll([f, g], [x, y])
    ensures var first := ReadField(f, x, wireType, s);
            var second := ReadField(g, y, wireType, first.rest);
            Visit([f, g], [x, y], f.tag, wireType, s) == Got(true, [first.value, second.value], second.rest)
  {
    hide ReadField, Visit;
    var first := ReadField(f, x, wireType, s);
    var second := ReadField(g, y, wireType, first.rest);
    assert [f, g][1..] == [g] && [x, y][1..] == [y] && [g][1..] == [] && [y][1..] == [];
    VisitMiss([g][1..], [y][1..], f.tag, wireType, second.rest);
    FirstVisited([g], [y], wireType, first.rest);
    assert [second.value] + [] == [second.value];
    FirstVisited([f, g], [x, y], wireType, s);
    assert [f, g][0] == f && [x, y][0] == x;
    assert [first.value] + [second.value] == [first.value, second.value];
  }

  lemma FirstVisited(fields: seq<Field>, vs: seq<Value>, wireType: nat, s: seq<Byte>)
    requires fields != [] && HasAll(fields, vs)
    ensures var first := ReadField(fields[0], vs[0], wireType, s);
            var others := Visit(fields[1..], vs[1..], fields[0].tag, wireType, first.rest);
            Visit(fields, vs, fields[0].tag, wireType, s) == Got(true, [first.value] + others.value, others.rest)
  {
    hide ReadField;
  }

  // ---- records cut short -------------------------------------------------------------------------

  // A string takes on the length announced at once; of its bytes those that are there are set, the others
  // keep what stood there, or are zero.
  lemma CutText(was: seq<Byte>, size: nat, part: seq<Byte>)
    requires |was| < TWO31 && |part| < size < TWO31
    ensures var r := ParseText(was, 2, Varint(size) + part);
            && !r.ok && r.rest == [] && |r.value| == size && r.value[..|part|] == part
            && (forall i | |part| <= i < size :: r.value[i] == if i < |was| then was[i] else 0)
  {
    hide ReadVarint64, Varint;
    ReadBack64(size, part);
    assert part[..|part|] == part;
  }

  // As an element of a vector it is dropped.
  lemma CutElement(f: Field, was: Value, size: nat, part: seq<Byte>)
    requires f.ty.Strs? && Has(f, was) && |part| < size < TWO31
    ensures ReadField(f, was, 2, Varint(size) + part) == Got(false, was, [])
  {
    hide Varint;
    CutText([], size, part);
  }

  // Of a packed vector the numbers in front of the cut one are kept.
  lemma CutPacked(sc: Scalar, was: seq<int>, ns: seq<int>, x: int, k: nat, size: nat)
    requires (forall i | 0 <= i < |was| :: sc.InRange(was[i])) && (forall i | 0 <= i < |ns| :: sc.InRange(ns[i]))
    requires sc.InRange(x) && k < |EncodeScalar(sc, x)|
    requires |EncodeNums(sc, ns) + EncodeScalar(sc, x)[..k]| < size < TWO64
    ensures var r := ParsePackedVector(sc, was, 2, Varint(size) + (EncodeNums(sc, ns) + EncodeScalar(sc, x)[..k]));
            !r.ok && r.value == was + ns && r.rest == []
  {
    hide ReadVarint64, Varint, ReadPackedLoop, EncodeNums, EncodeScalar;
    var body := EncodeNums(sc, ns) + EncodeScalar(sc, x)[..k];
    ReadBack64(size, body);
    assert Limited(body, size) == body && body[|body|..] == [];
    PackedLoopStops(sc, ns, x, k, size, was);
    assert [] + body[|body|..] == [];
  }

  lemma {:induction false} PackedLoopStops(sc: Scalar, ns: seq<int>, x: int, k: nat, limit: nat, acc: seq<int>)
    requires (forall i | 0 <= i < |acc| :: sc.InRange(acc[i])) && (forall i | 0 <= i < |ns| :: sc.InRange(ns[i]))
    requires sc.InRange(x) && k < |EncodeScalar(sc, x)| && |EncodeNums(sc, ns) + EncodeScalar(sc, x)[..k]| < limit
    ensures ReadPackedLoop(sc, EncodeNums(sc, ns) + EncodeScalar(sc, x)[..k], limit, acc) == Got(false, acc + ns, [])
    decreases |ns|
  {
    hide EncodeScalar, ReadPackedLoop;
    var cut := EncodeScalar(sc, x)[..k];
    if ns == [] {
      assert [] + cut == cut && acc + [] == acc;
      CutStops(sc, x, k, limit, acc);
    } else {
      var first, rest := EncodeScalar(sc, ns[0]), EncodeNums(sc, ns[1..]) + cut;
      Assoc(first, EncodeNums(sc, ns[1..]), cut);
      OneMoreRead(sc, ns[0], rest, limit, acc);
      PackedLoopStops(sc, ns[1..], x, k, limit - |first|, acc + [ns[0]]);
      assert acc + [ns[0]] + ns[1..] == acc + ns;
    }
  }

  lemma CutStops(sc: Scalar, x: int, k: nat, limit: nat, acc: seq<int>)
    requires (forall i | 0 <= i < |acc| :: sc.InRange(acc[i])) && sc.InRange(x) && k < |EncodeScalar(sc, x)| && k < limit
    ensures ReadPackedLoop(sc, EncodeScalar(sc, x)[..k], limit, acc) == Got(false, acc, [])
  {
    hide EncodeScalar, ReadScalar;
    CutNumber(sc, x, k);
  }

  lemma OneMoreRead(sc: Scalar, v: int, rest: seq<Byte>, limit: nat, acc: seq<int>)
    requires (forall i | 0 <= i < |acc| :: sc.InRange(acc[i])) && sc.InRange(v) && |EncodeScalar(sc, v) + rest| <= limit
    ensures ReadPackedLoop(sc, EncodeScalar(sc, v) + rest, limit, acc) ==
            ReadPackedLoop(sc, rest, limit - |EncodeScalar(sc, v)|, acc + [v])
  {
    hide EncodeScalar, ReadScalar, FromWire;
    ScalarRoundTrip(sc, v, rest);
  }

  // A nested message keeps what the bytes that are there say, as if they were all.
  lemma CutMessage(schema: Schema, was: seq<Value>, size: nat, part: seq<Byte>)
    requires HasAll(schema.fields, was) && |part| <= size < TWO64
    ensures ParseSub(schema, was, 2, Varint(size) + part) ==
            Got(true, ReadMessage(schema.fields, was, part).value, ReadMessage(schema.fields, was, part).rest)
  {
    hide ReadVarint64, Varint, ReadMessage;
    ReadBack64(size, part);
    assert Limited(part, size) == part && part[|part|..] == [];
    var rest := ReadMessage(schema.fields, was, part).rest;
    assert rest + [] == rest;
  }

  // ---- numbers cut short ----------------------------------------------------------------------------

  // The bits that have arrived.
  lemma {:induction false} CutVarint(v: nat, k: nat, left: nat, weight: nat, modulus: nat, acc: nat)
    requires modulus > 0 && acc + Times(v, weight) < modulus && k < |Varint(v)| <= left
    ensures ReadVarintFrom(Varint(v)[..k], left, weight, modulus, acc) ==
            ReadNum(false, acc + Times(v % Pow128(k), weight), [])
    decreases v
  {
    hide AddDigit, Times, ReadVarintFrom;
    if k == 0 {
      assert Varint(v)[..0] == [];
      NothingLeft(left, weight, modulus, acc);
      assert v % 1 == 0;
      NoTimes(weight);
    } else {
      var d: Byte, tail := v % 128 + 128, Varint(v / 128);
      assert Varint(v)[..k] == [d] + tail[..k - 1];
      Digits(v, weight, acc, modulus);
      ReadOneByte(d, tail[..k - 1], left, weight, modulus, acc);
      CutVarint(v / 128, k - 1, left - 1, 128 * weight, modulus, AddDigit(acc, d - 128, weight, modulus));
      LowDigits(v, k, weight, acc, modulus);
    }
  }

  lemma NothingLeft(left: nat, weight: nat, modulus: nat, acc: nat)
    requires modulus > 0
    ensures ReadVarintFrom([], left, weight, modulus, acc) == ReadNum(false, acc, [])
  {
  }

  lemma NoTimes(weight: nat)
    ensures Times(0, weight) == 0
  {
  }

  lemma LowDigits(v: nat, k: nat, weight: nat, acc: nat, modulus: nat)
    requires modulus > 0 && k > 0 && acc + Times(v, weight) < modulus
    ensures AddDigit(acc, v % 128, weight, modulus) + Times(v / 128 % Pow128(k - 1), 128 * weight) ==
            acc + Times(v % Pow128(k), weight)
  {
    hide Times;
    LowPart(v, k);
    var low := v % Pow128(k);
    TimesMonotone(low, v, weight);
    Digits(low, weight, acc, modulus);
  }

  lemma LowPart(v: nat, k: nat)
    requires k > 0
    ensures v % Pow128(k) <= v && v % Pow128(k) % 128 == v % 128 && v % Pow128(k) / 128 == v / 128 % Pow128(k - 1)
  {
    var p := Pow128(k - 1);
    var q, r := v / 128, v % 128;
    var a, b := q / p, q % p;
    Regroup(v, p, q, r, a, b);
    Remainder(v, 128 * p, a, 128 * b + r);
  }

  lemma Regroup(v: nat, p: nat, q: nat, r: nat, a: nat, b: nat)
    requires p > 0 && v == 128 * q + r && q == a * p + b && r < 128 && b < p
    ensures v == a * (128 * p) + (128 * b + r) && 128 * b + r < 128 * p
  {
    assert 128 * (a * p) == a * (128 * p);
  }

  lemma Remainder(v: nat, m: nat, a: nat, r: nat)
    requires m > 0 && v == a * m + r && r < m
    ensures v % m == r
  {
    var q, s := v / m, v % m;
    assert v == q * m + s;
    NoMore(a, r, q, s, m);
    NoMore(q, s, a, r, m);
  }

  lemma NoMore(a: nat, r: nat, q: nat, s: nat, m: nat)
    requires m > 0 && a * m + r == q * m + s && s < m
    ensures a <= q
  {
    if a > q {
      OneMore(a, q, m);
      assert false;
    }
  }

  lemma OneMore(a: nat, q: nat, m: nat)
    requires a > q
    ensures a * m >= q * m + m
  {
    assert (a - q - 1) * m >= 0;
    assert a * m == (a - q - 1) * m + q * m + m;
  }

  lemma TimesMonotone(a: nat, b: nat, w: nat)
    requires a <= b
    ensures Times(a, w) <= Times(b, w)
  {
    assert b * w == a * w + (b - a) * w;
  }

  // A number of any kind that is cut short is not read, and its bytes are gone.
  lemma CutNumber(sc: Scalar, x: int, k: nat)
    requires sc.InRange(x) && k < |EncodeScalar(sc, x)|
    ensures var r := ReadScalar(sc, EncodeScalar(sc, x)[..k]); !r.ok && r.rest == []
  {
    hide Varint, ReadVarintFrom, Times, Le64, Le32;
    if !sc.Fixed() {
      var n := ToWire(sc, x);
      VarintFits(n);
      OneTimes(n);
      CutVarint(n, k, if sc.Wide() then 10 else 5, 1, sc.Modulus(), 0);
    }
  }

  lemma OneTimes(n: nat)
    ensures Times(n, 1) == n
  {
  }

  // A uint32_t member then holds the low bits, seven for each byte that arrived.
  lemma CutUint32(was: U32, v: U32, k: nat)
    requires k < |Varint(v)|
    ensures ParseOne(U32T, was, 0, Varint(v)[..k]) == Got(false, v % Pow128(k), [])
  {
    hide Varint, ReadVarintFrom, Times, Pow128;
    VarintFits(v);
    OneTimes(v);
    OneTimes(v % Pow128(k));
    CutVarint(v, k, 5, 1, TWO32, 0);
    Below(v, Pow128(k));
  }

  lemma Below(v: nat, m: nat)
    requires m > 0
    ensures v % m <= v
  {
    assert v == m * (v / m) + v % m;
  }
}

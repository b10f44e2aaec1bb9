/** The reader of src/common/serial_struct_define.h: a position, a stack of limits, and the parsing loops. */
module SerialReader {
  import opened Bytes
  import opened SerialWire
  import opened SerialSchema
  import opened SerialRead

  // ---- nested limits --------------------------------------------------------------------

  // How many of `avail` bytes can be read through readers with these limits, the innermost last.
  function Room(avail: nat, limits: seq<nat>): (n: nat)
    ensures n <= avail
  {
    if limits == [] then avail else Min(limits[|limits| - 1], Room(avail, limits[..|limits| - 1]))
  }

  // Every limit after c bytes were read.
  function Less(limits: seq<nat>, c: nat): (l: seq<nat>)
    ensures |l| == |limits|
    ensures forall i | 0 <= i < |limits| :: l[i] == if limits[i] >= c then limits[i] - c else 0
  {
    seq(|limits|, i requires 0 <= i < |limits| => if limits[i] >= c then limits[i] - c else 0)
  }

  lemma {:induction false} RoomLess(avail: nat, limits: seq<nat>, c: nat)
    requires c <= Room(avail, limits)
    ensures Room(avail - c, Less(limits, c)) == Room(avail, limits) - c
    decreases |limits|
  {
    if limits != [] {
      var n := |limits| - 1;
      assert Less(limits, c)[..n] == Less(limits[..n], c);
      RoomLess(avail, limits[..n], c);
    }
  }

  lemma RoomInner(avail: nat, limits: seq<nat>, size: nat)
    ensures Room(avail, limits + [size]) == Min(size, Room(avail, limits))
  {
    assert (limits + [size])[..|limits|] == limits;
  }

  lemma CutTwice(s: seq<Byte>, k: nat, c: nat)
    requires c <= k <= |s|
    ensures s[..k][c..] + s[k..] == s[c..]
  {
  }

  lemma LessTwice(limits: seq<nat>, a: nat, b: nat)
    ensures Less(Less(limits, a), b) == Less(limits, a + b)
    ensures Less(limits, 0) == limits
  {
  }

  lemma LessOuter(limits: seq<nat>, size: nat, c: nat)
    ensures var l := Less(limits + [size], c); l[..|l| - 1] == Less(limits, c)
    ensures (limits + [size])[..|limits|] == limits
  {
    assert Less(limits + [size], c)[..|limits|] == Less(limits, c);
  }

  // One round of a ReadVarint loop.
  lemma OneByte(s: seq<Byte>, left: nat, weight: nat, modulus: nat, acc: nat)
    requires modulus > 0
    ensures ReadVarintFrom(s, left, weight, modulus, acc) ==
            if left == 0 || s == [] then ReadNum(false, acc, s)
            else if s[0] < 128 then ReadNum(true, AddDigit(acc, s[0] % 128, weight, modulus), s[1..])
            else ReadVarintFrom(s[1..], left - 1, 128 * weight, modulus, AddDigit(acc, s[0] % 128, weight, modulus))
  {
  }

  // ---- the reader --------------------------------------------------------------------------

  // A StringReader and the LimitedReaders stacked on it.
  class Reader {
    const input: seq<Byte>
    var pos: nat
    var limits: seq<nat>

    constructor (input: seq<Byte>)
      ensures this.input == input && pos == 0 && limits == [] && Valid() && Reach() == input
    {
      this.input, pos, limits := input, 0, [];
    }

    predicate Valid()
      reads this
    {
      pos <= |input|
    }

    // The bytes the innermost of readers with these limits can reach at this position.
    function Span(at: nat, limits: seq<nat>): (s: seq<Byte>)
      requires at <= |input|
    {
      input[at..at + Room(|input| - at, limits)]
    }

    function Reach(): seq<Byte>
      reads this
      requires Valid()
    {
      Span(pos, limits)
    }

    // The reader moved on from the state given, within reach, and every limit moved with it.
    predicate Onward(pos0: nat, limits0: seq<nat>)
      reads this
    {
      && pos0 <= pos && pos <= pos0 + Room(if pos0 <= |input| then |input| - pos0 else 0, limits0)
      && Valid()
      && limits == Less(limits0, pos - pos0)
    }

    lemma Stay()
      requires Valid()
      ensures Onward(pos, limits)
    {
      LessTwice(limits, 0, 0);
    }

    // Reaching from here is reaching from there, less what was read.
    lemma ReachOnward(pos0: nat, limits0: seq<nat>)
      requires Onward(pos0, limits0)
      ensures var room := Room(|input| - pos0, limits0);
              && Room(|input| - pos, limits) == room - (pos - pos0)
              && Reach() == Span(pos0, limits0)[pos - pos0..]
    {
      RoomLess(|input| - pos0, limits0, pos - pos0);
    }

    lemma Chain(pos0: nat, limits0: seq<nat>, pos1: nat, limits1: seq<nat>)
      requires pos0 <= pos1 <= |input| && pos1 - pos0 <= Room(|input| - pos0, limits0)
      requires limits1 == Less(limits0, pos1 - pos0)
      requires Onward(pos1, limits1)
      ensures Valid() && Onward(pos0, limits0)
    {
      hide Room;
      LessTwice(limits0, pos1 - pos0, pos - pos1);
      RoomLess(|input| - pos0, limits0, pos1 - pos0);
    }

    // LimitedReader::Read down to StringReader::Read: the least of the size and the limits on the way
    // in, every limit reduced by what was read on the way out.
    method Read(size: nat) returns (bytes: seq<Byte>)
      requires Valid()
      modifies this
      ensures Onward(old(pos), old(limits))
      ensures bytes == old(Reach())[..Min(size, |old(Reach())|)] && Reach() == old(Reach())[|bytes|..]
    {
      hide Room;
      var k := Least(size);
      bytes := input[pos..pos + k];
      pos, limits := pos + k, Less(limits, k);
      ReachOnward(old(pos), old(limits));
    }

    method Least(size: nat) returns (k: nat)
      requires Valid()
      ensures k == Min(size, Room(|input| - pos, limits))
    {
      k := size;
      assert limits[..|limits|] == limits;
      for i := |limits| downto 0
        invariant Min(k, Room(|input| - pos, limits[..i])) == Min(size, Room(|input| - pos, limits))
      {
        assert limits[..i + 1][..i] == limits[..i];
        k := Min(k, limits[i]);
      }
      k := Min(k, |input| - pos);
    }

    method ReadByte() returns (ok: bool, value: Byte)
      requires Valid()
      modifies this
      ensures Onward(old(pos), old(limits))
      ensures ok == (old(Reach()) != [])
      ensures ok ==> value == old(Reach())[0] && Reach() == old(Reach())[1..]
      ensures !ok ==> Reach() == []
    {
      var bytes := Read(1);
      ok, value := |bytes| == 1, 0;
      if ok {
        value := bytes[0];
      }
    }

    // Both ReadVarint loops; they differ in the number of bytes and the width.
    method ReadVarint(max: nat, modulus: nat) returns (ok: bool, value: nat)
      requires Valid() && modulus > 0
      modifies this
      ensures Onward(old(pos), old(limits))
      ensures ReadVarintFrom(old(Reach()), max, 1, modulus, 0) == ReadNum(ok, value, Reach())
    {
      hide AddDigit, ReadVarintFrom, Room;
      value := 0;
      var weight: nat := 1;
      Stay();
      for c := 0 to max
        invariant Valid() && Onward(old(pos), old(limits))
        invariant ReadVarintFrom(old(Reach()), max, 1, modulus, 0) == ReadVarintFrom(Reach(), max - c, weight, modulus, value)
      {
        ghost var s, pos1, limits1 := Reach(), pos, limits;
        var more, x := ReadByte();
        Chain(old(pos), old(limits), pos1, limits1);
        OneByte(s, max - c, weight, modulus, value);
        if !more {
          return false, value;
        }
        value := AddDigit(value, x % 128, weight, modulus);
        if x < 128 {
          return true, value;
        }
        weight := 128 * weight;
      }
      OneByte(Reach(), 0, weight, modulus, value);
      return false, value;
    }

    // The bytes of a fixed number, fewer than its width if they ran out.
    method ReadFixedBytes(wide: bool) returns (ok: bool, bytes: seq<Byte>)
      requires Valid()
      modifies this
      ensures Onward(old(pos), old(limits))
      ensures var r := ReadFixed(old(Reach()), wide);
              && r.ok == ok && Reach() == r.rest
              && (if ok then |bytes| == (if wide then 8 else 4) && r.value == (if wide then FromLe64(bytes) else FromLe32(bytes))
                  else bytes == old(Reach()))
    {
      hide FromLe64, FromLe32;
      var width := if wide then 8 else 4;
      bytes := Read(width);
      ok := |bytes| == width;
    }

    method ReadNumber(sc: Scalar) returns (ok: bool, value: nat)
      requires Valid()
      modifies this
      ensures Onward(old(pos), old(limits))
      ensures var r := ReadScalar(sc, old(Reach())); r.ok == ok && r.rest == Reach() && (ok ==> r.value == value)
    {
      hide FromLe64, FromLe32, ReadVarintFrom;
      if sc.Fixed() {
        var bytes;
        ok, bytes := ReadFixedBytes(sc.Wide());
        value := if !ok then 0 else if sc.Wide() then FromLe64(bytes) else FromLe32(bytes);
      } else if sc.Wide() {
        ok, value := ReadVarint(10, TWO64);
      } else {
        ok, value := ReadVarint(5, TWO32);
      }
    }

    // ---- members --------------------------------------------------------------------------

    method ParseNumber(sc: Scalar, was: int, wireType: nat) returns (ok: bool, value: int)
      requires Valid() && sc.InRange(was)
      modifies this
      ensures Onward(old(pos), old(limits))
      ensures ParseOne(sc, was, wireType, old(Reach())) == Got(ok, value, Reach())
    {
      hide FromLe64, FromLe32, FromWire, ReadVarintFrom, Le64, Le32;
      Stay();
      if wireType != WireTypeOf(sc) {
        return false, was;
      }
      if sc.Fixed() {
        ghost var s := Reach();
        var bytes;
        ok, bytes := ReadFixedBytes(sc.Wide());
        if ok {
          value := FromWire(sc, if sc.Wide() then FromLe64(bytes) else FromLe32(bytes));
        } else {
          value := AfterFailure(sc, was, bytes, 0);
        }
      } else if sc.Wide() {
        var n;
        ok, n := ReadVarint(10, TWO64);
        value := if ok then FromWire(sc, n) else if sc.U64T? then n else was;
      } else {
        var n;
        ok, n := ReadVarint(5, TWO32);
        value := if ok then FromWire(sc, n) else if sc.U32T? then n else was;
      }
    }

    method ParseString(was: seq<Byte>, wireType: nat) returns (ok: bool, value: seq<Byte>)
      requires Valid() && |was| < TWO31
      modifies this
      ensures Onward(old(pos), old(limits))
      ensures ParseText(was, wireType, old(Reach())) == Got(ok, value, Reach())
    {
      hide ReadVarintFrom, Room;
      Stay();
      if wireType != LENGTH_DELIMETED {
        return false, was;
      }
      var more, size := ReadVarint(10, TWO64);
      if !more {
        return false, was;
      }
      if size >= TWO31 {
        return false, was;
      }
      ghost var pos1, limits1 := pos, limits;
      var bytes := Read(size);
      Chain(old(pos), old(limits), pos1, limits1);
      return |bytes| == size, bytes + Resize(was, size)[|bytes|..];
    }

    // A LimitedReader on what can be reached now, and its end of life.
    method Enter(size: nat)
      requires Valid()
      modifies `limits
      ensures Valid() && limits == old(limits) + [size]
      ensures Reach() == Limited(old(Reach()), size)
    {
      limits := limits + [size];
      assert limits[..|limits| - 1] == old(limits);
    }

    method Leave(ghost pos1: nat, ghost limits1: seq<nat>, ghost size: nat)
      requires Onward(pos1, limits1 + [size]) && pos1 <= |input|
      modifies `limits
      ensures Onward(pos1, limits1)
      ensures var s := Span(pos1, limits1);
              Reach() == old(Reach()) + s[|Limited(s, size)|..]
    {
      hide Room;
      ghost var room := Room(|input| - pos1, limits1);
      LessOuter(limits1, size, pos - pos1);
      ReachOnward(pos1, limits1 + [size]);
      RoomInner(|input| - pos1, limits1, size);
      limits := limits[..|limits| - 1];
      ReachOnward(pos1, limits1);
      CutTwice(Span(pos1, limits1), Min(size, room), pos - pos1);
      assert Span(pos1, limits1)[..Min(size, room)] == Span(pos1, limits1 + [size]);
    }

    method ParsePacked(sc: Scalar, was: seq<int>, wireType: nat) returns (ok: bool, ns: seq<int>)
      requires Valid() && forall i | 0 <= i < |was| :: sc.InRange(was[i])
      modifies this
      ensures Onward(old(pos), old(limits))
      ensures ParsePackedVector(sc, was, wireType, old(Reach())) == Got(ok, ns, Reach())
    {
      hide ReadVarintFrom, Room, ReadScalar, FromWire, ReadPackedLoop, Less, Reader.Onward, Reader.Span;
      Stay();
      if wireType != LENGTH_DELIMETED {
        return false, was;
      }
      var more, size := ReadVarint(10, TWO64);
      if !more {
        return false, was;
      }
      ghost var pos1, limits1 := pos, limits;
      OnwardIs(old(pos), old(limits));
      Enter(size);
      ok, ns := ReadPacked(sc, was);
      Leave(pos1, limits1, size);
      Chain(old(pos), old(limits), pos1, limits1);
    }

    lemma OnwardIs(pos0: nat, limits0: seq<nat>)
      requires Onward(pos0, limits0) && pos0 <= |input|
      ensures pos0 <= pos <= |input| && pos - pos0 <= Room(|input| - pos0, limits0) && limits == Less(limits0, pos - pos0)
    {
    }

    // The loop over limitedIn, until it has no available bytes or a number does not parse.
    method ReadPacked(sc: Scalar, was: seq<int>) returns (ok: bool, ns: seq<int>)
      requires Valid() && limits != [] && |Reach()| <= limits[|limits| - 1]
      requires forall i | 0 <= i < |was| :: sc.InRange(was[i])
      modifies this
      ensures Onward(old(pos), old(limits))
      ensures ReadPackedLoop(sc, old(Reach()), old(limits)[|old(limits)| - 1], was) == Got(ok, ns, Reach())
    {
      hide ReadScalar, FromWire, ReadPackedLoop, Room, Less, Reader.Onward, Reader.Span;
      ghost var s0, limit0 := Reach(), limits[|limits| - 1];
      ns := was;
      Stay();
      while limits[|limits| - 1] > 0
        invariant Valid() && limits != [] && |Reach()| <= limits[|limits| - 1]
        invariant old(pos) <= |input| && Onward(old(pos), old(limits))
        invariant forall i | 0 <= i < |ns| :: sc.InRange(ns[i])
        invariant ReadPackedLoop(sc, s0, limit0, was) == ReadPackedLoop(sc, Reach(), limits[|limits| - 1], ns)
        decreases limits[|limits| - 1]
      {
        ghost var s, pos1, limits1 := Reach(), pos, limits;
        PackedStep(sc, s, limits[|limits| - 1], ns);
        OnwardIs(old(pos), old(limits));
        var more, n := ReadNumber(sc);
        Consumed(pos1, limits1);
        Chain(old(pos), old(limits), pos1, limits1);
        if !more {
          return false, ns;
        }
        ns := ns + [FromWire(sc, n)];
      }
      PackedStep(sc, Reach(), 0, ns);
      return true, ns;
    }

    lemma PackedStep(sc: Scalar, s: seq<Byte>, limit: nat, ns: seq<int>)
      requires |s| <= limit && forall i | 0 <= i < |ns| :: sc.InRange(ns[i])
      ensures var r := ReadScalar(sc, s);
              ReadPackedLoop(sc, s, limit, ns) ==
              if limit == 0 then Got(true, ns, s)
              else if !r.ok then Got(false, ns, r.rest)
              else ReadPackedLoop(sc, r.rest, limit - (|s| - |r.rest|), ns + [FromWire(sc, r.value)])
    {
      hide ReadScalar, FromWire;
    }

    // What was read is the same for the reach and for the innermost limit.
    lemma Consumed(pos0: nat, limits0: seq<nat>)
      requires Onward(pos0, limits0) && limits0 != []
      ensures |limits| == |limits0| && pos0 <= pos <= |input|
      ensures |Reach()| == |Span(pos0, limits0)| - (pos - pos0)
      ensures pos - pos0 <= limits0[|limits0| - 1]
      ensures limits[|limits| - 1] == limits0[|limits0| - 1] - (pos - pos0)
    {
      ReachOnward(pos0, limits0);
    }

    // ---- messages -----------------------------------------------------------------------------

    // Serializer<T>::Parse for a nested message.
    method ParseMessage(schema: Schema, was: seq<Value>, wireType: nat) returns (ok: bool, vs: seq<Value>)
      requires Valid() && HasAll(schema.fields, was)
      modifies this
      ensures Onward(old(pos), old(limits))
      ensures HasAll(schema.fields, vs)
      ensures ParseSub(schema, was, wireType, old(Reach())) == Got(ok, vs, Reach())
      decreases schema, 0, 0
    {
      hide ReadVarintFrom, Room, SerialRead.ReadMessage, HasAll, Less, Reader.Onward, Reader.Span;
      Stay();
      if wireType != LENGTH_DELIMETED {
        return false, was;
      }
      var more, size := ReadVarint(10, TWO64);
      if !more {
        return false, was;
      }
      ghost var pos1, limits1 := pos, limits;
      OnwardIs(old(pos), old(limits));
      Enter(size);
      vs := ReadMessage(schema.fields, was);
      Leave(pos1, limits1, size);
      Chain(old(pos), old(limits), pos1, limits1);
      ok := true;
    }

    // Serializer<T>::Parse for the member's type.
    method ReadField(f: Field, was: Value, wireType: nat) returns (v: Value)
      requires Valid() && Has(f, was)
      modifies this
      ensures Onward(old(pos), old(limits))
      ensures var r := SerialRead.ReadField(f, was, wireType, old(Reach())); r.value == v && r.rest == Reach()
      decreases f, 0, 0
    {
      hide Room, Less, Reader.Onward, Reader.Span, ParseOne, ParseText, ParsePackedVector, ParseSub, HasAll, HasEach;
      var ok;
      match f.ty {
        case One(sc) =>
          var n;
          ok, n := ParseNumber(sc, was.n, wireType);
          v := Num(n);
        case Str =>
          var s;
          ok, s := ParseString(was.s, wireType);
          v := Text(s);
        case Packed(sc) =>
          var ns;
          ok, ns := ParsePacked(sc, was.ns, wireType);
          v := Nums(ns);
        case Strs =>
          var s;
          ok, s := ParseString([], wireType);
          v := if ok then Texts(was.ss + [s]) else was;
        case Sub(schema) =>
          var vs;
          ok, vs := ParseMessage(schema, was.vs, wireType);
          v := Msg(vs);
        case Subs(schema) =>
          var vs;
          ok, vs := ParseMessage(schema, BlankAll(schema.fields), wireType);
          v := if ok then Msgs(was.ms + [Msg(vs)]) else was;
      }
    }

    lemma VisitStep(fields: seq<Field>, vs: seq<Value>, i: nat, tag: nat, wireType: nat, s: seq<Byte>)
      requires |vs| == |fields| && i < |fields| && HasAll(fields[i..], vs[i..])
      ensures Has(fields[i], vs[i]) && HasAll(fields[i + 1..], vs[i + 1..])
      ensures var first := if fields[i].tag == tag then SerialRead.ReadField(fields[i], vs[i], wireType, s) else Got(false, vs[i], s);
              var others := SerialRead.Visit(fields[i + 1..], vs[i + 1..], tag, wireType, first.rest);
              SerialRead.Visit(fields[i..], vs[i..], tag, wireType, s) == Got(true, [first.value] + others.value, others.rest)
    {
      hide SerialRead.ReadField, Has;
      assert fields[i..][1..] == fields[i + 1..] && vs[i..][1..] == vs[i + 1..];
    }

    // Visit with ReadField for every field.
    method Visit(fields: seq<Field>, was: seq<Value>, tag: nat, wireType: nat) returns (vs: seq<Value>)
      requires Valid() && HasAll(fields, was)
      modifies this
      ensures Onward(old(pos), old(limits))
      ensures HasAll(fields, vs)
      ensures SerialRead.Visit(fields, was, tag, wireType, old(Reach())) == Got(true, vs, Reach())
      decreases fields, 1, 0
    {
      hide Room, Less, Reader.Onward, Reader.Span, SerialRead.ReadField, SerialRead.Visit, Has;
      ghost var s0 := Reach();
      vs := was;
      Stay();
      assert fields[0..] == fields && vs[0..] == was;
      assert vs[..0] + SerialRead.Visit(fields, was, tag, wireType, s0).value == SerialRead.Visit(fields, was, tag, wireType, s0).value;
      for i := 0 to |fields|
        invariant Valid() && old(pos) <= |input| && Onward(old(pos), old(limits))
        invariant |vs| == |was| == |fields| && vs[i..] == was[i..] && HasAll(fields[i..], vs[i..])
        invariant var others := SerialRead.Visit(fields[i..], vs[i..], tag, wireType, Reach());
                  SerialRead.Visit(fields, was, tag, wireType, s0) == Got(true, vs[..i] + others.value, others.rest)
      {
        ghost var vs1, s, pos1, limits1 := vs, Reach(), pos, limits;
        VisitStep(fields, vs, i, tag, wireType, s);
        OnwardIs(old(pos), old(limits));
        if fields[i].tag == tag {
          var v := ReadField(fields[i], vs[i], wireType);
          Chain(old(pos), old(limits), pos1, limits1);
          vs := vs[i := v];
          assert vs[..i + 1] == vs1[..i] + [v];
        } else {
          assert vs[..i + 1] == vs1[..i] + [vs[i]];
        }
        assert vs[i + 1..] == vs1[i + 1..];
        Assoc(vs1[..i], [vs[i]], SerialRead.Visit(fields[i + 1..], vs[i + 1..], tag, wireType, Reach()).value);
      }
      VisitNothing(tag, wireType, Reach());
      assert vs[..|fields|] + [] == vs;
    }

    lemma VisitNothing(tag: nat, wireType: nat, s: seq<Byte>)
      ensures SerialRead.Visit([], [], tag, wireType, s) == Got(true, [], s)
    {
    }

    lemma RecordStep(fields: seq<Field>, vs: seq<Value>, s: seq<Byte>)
      requires HasAll(fields, vs)
      ensures var key := ReadVarint32(s);
              var r := SerialRead.Visit(fields, vs, key.value / 8, key.value % 8, key.rest);
              SerialRead.ReadMessage(fields, vs, s) ==
              if !key.ok then Got(true, vs, key.rest) else SerialRead.ReadMessage(fields, r.value, r.rest)
    {
      hide SerialRead.Visit, ReadVarint32, HasAll;
    }

    // The loop over the records of a message.
    method ReadMessage(fields: seq<Field>, was: seq<Value>) returns (vs: seq<Value>)
      requires Valid() && HasAll(fields, was)
      modifies this
      ensures Onward(old(pos), old(limits))
      ensures HasAll(fields, vs)
      ensures SerialRead.ReadMessage(fields, was, old(Reach())) == Got(true, vs, Reach())
      decreases fields, 2, 0
    {
      hide Room, Less, Reader.Onward, Reader.Span, SerialRead.ReadMessage, SerialRead.Visit, ReadVarintFrom, HasAll;
      ghost var s0 := Reach();
      vs := was;
      Stay();
      while true
        invariant Valid() && old(pos) <= |input| && Onward(old(pos), old(limits))
        invariant HasAll(fields, vs)
        invariant SerialRead.ReadMessage(fields, was, s0) == SerialRead.ReadMessage(fields, vs, Reach())
        decreases |Reach()|
      {
        RecordStep(fields, vs, Reach());
        OnwardIs(old(pos), old(limits));
        ghost var pos1, limits1 := pos, limits;
        var more, tagKey := ReadVarint(5, TWO32);
        Chain(old(pos), old(limits), pos1, limits1);
        if !more {
          return;
        }
        OnwardIs(old(pos), old(limits));
        ghost var pos2, limits2 := pos, limits;
        vs := Visit(fields, vs, tagKey / 8, tagKey % 8);
        Chain(old(pos), old(limits), pos2, limits2);
      }
    }
  }

  method ParseFromString(fields: seq<Field>, was: seq<Value>, s: seq<Byte>) returns (vs: seq<Value>)
    requires HasAll(fields, was)
    ensures HasAll(fields, vs)
    ensures vs == SerialRead.ParseFromString(fields, was, s)
  {
    hide SerialRead.ReadMessage, HasAll;
    var stringIn := new Reader(s);
    vs := stringIn.ReadMessage(fields, was);
  }
}

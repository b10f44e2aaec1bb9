/** The parser of src/common/serial_struct_define.h: ReadMessage and its limited readers, as values. */
module SerialRead {
  import opened Bytes
  import opened SerialWire
  import opened SerialSchema

  // What a member holds after a read and the bytes its reader has left; `ok` is what Parse returns,
  // which ReadField drops.
  datatype Got<+T> = Got(ok: bool, value: T, rest: seq<Byte>)

  // ---- numbers ------------------------------------------------------------------------

  // A failed read leaves the member alone, except where it reads straight into it: the varint bits
  // and the bytes of a fixed number found so far are already there.
  function AfterFailure(sc: Scalar, was: int, s: seq<Byte>, partial: nat): (v: int)
    requires sc.InRange(was) && partial < sc.Modulus()
    ensures sc.InRange(v)
  {
    match sc
    case U32T => partial
    case U64T => partial
    case F32T => if |s| < 4 then FromLe32(s + Le32(was)[|s|..]) else was
    case F64T => if |s| < 8 then FromLe64(s + Le64(was)[|s|..]) else was
    case _ => was
  }

  function ParseOne(sc: Scalar, was: int, wireType: nat, s: seq<Byte>): (r: Got<int>)
    requires sc.InRange(was)
    ensures sc.InRange(r.value) && |r.rest| <= |s|
  {
    if wireType != WireTypeOf(sc) then Got(false, was, s)
    else
      var r := ReadScalar(sc, s);
      Got(r.ok, if r.ok then FromWire(sc, r.value) else AfterFailure(sc, was, s, r.value), r.rest)
  }

  // ---- strings -------------------------------------------------------------------------

  function Resize(s: seq<Byte>, size: nat): (t: seq<Byte>)
    ensures |t| == size
  {
    if size <= |s| then s[..size] else s + seq(size - |s|, _ => 0)
  }

  // A string is at most what one copy moves, 0x7fffffff bytes; what happens to a longer one announced
  // is not part of this model.
  function ParseText(was: seq<Byte>, wireType: nat, s: seq<Byte>): (r: Got<seq<Byte>>)
    requires |was| < TWO31
    ensures |r.value| < TWO31 && |r.rest| <= |s|
  {
    if wireType != LENGTH_DELIMETED then Got(false, was, s)
    else
      var n := ReadVarint64(s);
      if !n.ok then Got(false, was, n.rest)
      else if n.value >= TWO31 then Got(false, was, n.rest)
      else
        var k := Min(n.value, |n.rest|);
        Got(k == n.value, n.rest[..k] + Resize(was, n.value)[k..], n.rest[k..])
  }

  // ---- the limited reader ------------------------------------------------------------------

  // A LimitedReader over what its parent has: the bytes it can reach.
  function Limited(s: seq<Byte>, size: nat): seq<Byte> {
    s[..Min(size, |s|)]
  }

  // Packed numbers until the limit is used up or a read fails.
  function ReadPackedLoop(sc: Scalar, s: seq<Byte>, limit: nat, ns: seq<int>): (r: Got<seq<int>>)
    requires |s| <= limit
    requires forall i | 0 <= i < |ns| :: sc.InRange(ns[i])
    ensures forall i | 0 <= i < |r.value| :: sc.InRange(r.value[i])
    ensures |r.rest| <= |s|
    decreases limit
  {
    if limit == 0 then Got(true, ns, s)
    else
      var r := ReadScalar(sc, s);
      if !r.ok then Got(false, ns, r.rest)
      else ReadPackedLoop(sc, r.rest, limit - (|s| - |r.rest|), ns + [FromWire(sc, r.value)])
  }

  function ParsePackedVector(sc: Scalar, was: seq<int>, wireType: nat, s: seq<Byte>): (r: Got<seq<int>>)
    requires forall i | 0 <= i < |was| :: sc.InRange(was[i])
    ensures forall i | 0 <= i < |r.value| :: sc.InRange(r.value[i])
    ensures |r.rest| <= |s|
  {
    if wireType != LENGTH_DELIMETED then Got(false, was, s)
    else
      var n := ReadVarint64(s);
      if !n.ok then Got(false, was, n.rest)
      else
        var sub := Limited(n.rest, n.value);
        var r := ReadPackedLoop(sc, sub, n.value, was);
        Got(r.ok, r.value, r.rest + n.rest[|sub|..])
  }

  // ---- messages ------------------------------------------------------------------------------

  // A value of the member type just declared; the C++ numbers in it are not set to anything.
  function Blank(f: Field): (v: Value)
    ensures Has(f, v)
    decreases f, 0
  {
    match f.ty
    case One(_) => Num(0)
    case Str => Text([])
    case Packed(_) => Nums([])
    case Strs => Texts([])
    case Sub(schema) => Msg(BlankAll(schema.fields))
    case Subs(_) => Msgs([])
  }

  function BlankAll(fields: seq<Field>): (vs: seq<Value>)
    ensures HasAll(fields, vs)
    decreases fields, 0
  {
    if fields == [] then [] else [Blank(fields[0])] + BlankAll(fields[1..])
  }

  // Serializer<T>::Parse for a nested message.
  function ParseSub(schema: Schema, was: seq<Value>, wireType: nat, s: seq<Byte>): (r: Got<seq<Value>>)
    requires HasAll(schema.fields, was)
    ensures HasAll(schema.fields, r.value) && |r.rest| <= |s|
    decreases schema, 0, 0
  {
    if wireType != LENGTH_DELIMETED then Got(false, was, s)
    else
      var n := ReadVarint64(s);
      if !n.ok then Got(false, was, n.rest)
      else
        var sub := Limited(n.rest, n.value);
        var r := ReadMessage(schema.fields, was, sub);
        Got(true, r.value, r.rest + n.rest[|sub|..])
  }

  function ReadField(f: Field, was: Value, wireType: nat, s: seq<Byte>): (r: Got<Value>)
    requires Has(f, was)
    ensures Has(f, r.value) && |r.rest| <= |s|
    decreases f, 0, 0
  {
    match f.ty
    case One(sc) => var r := ParseOne(sc, was.n, wireType, s); Got(r.ok, Num(r.value), r.rest)
    case Str => var r := ParseText(was.s, wireType, s); Got(r.ok, Text(r.value), r.rest)
    case Packed(sc) => var r := ParsePackedVector(sc, was.ns, wireType, s); Got(r.ok, Nums(r.value), r.rest)
    case Strs =>
      var r := ParseText([], wireType, s);
      Got(r.ok, if r.ok then Texts(was.ss + [r.value]) else was, r.rest)
    case Sub(schema) => var r := ParseSub(schema, was.vs, wireType, s); Got(r.ok, Msg(r.value), r.rest)
    case Subs(schema) =>
      var r := ParseSub(schema, BlankAll(schema.fields), wireType, s);
      HasOneMore(schema, was.ms, r.value);
      Got(r.ok, if r.ok then Msgs(was.ms + [Msg(r.value)]) else was, r.rest)
  }

  // Visit: every field with this tag reads, in order of declaration; an unknown tag reads nothing.
  function Visit(fields: seq<Field>, vs: seq<Value>, tag: nat, wireType: nat, s: seq<Byte>): (r: Got<seq<Value>>)
    requires HasAll(fields, vs)
    ensures r.ok && HasAll(fields, r.value) && |r.rest| <= |s|
    decreases fields, 1, 0
  {
    if fields == [] then Got(true, [], s)
    else
      var first := if fields[0].tag == tag then ReadField(fields[0], vs[0], wireType, s) else Got(false, vs[0], s);
      var others := Visit(fields[1..], vs[1..], tag, wireType, first.rest);
      var all := [first.value] + others.value;
      assert all[1..] == others.value;
      Got(true, all, others.rest)
  }

  function ReadMessage(fields: seq<Field>, vs: seq<Value>, s: seq<Byte>): (r: Got<seq<Value>>)
    requires HasAll(fields, vs)
    ensures HasAll(fields, r.value) && |r.rest| <= |s|
    decreases fields, 2, |s|
  {
    var key := ReadVarint32(s);
    if !key.ok then Got(true, vs, key.rest)
    else
      var r := Visit(fields, vs, key.value / 8, key.value % 8, key.rest);
      ReadMessage(fields, r.value, r.rest)
  }

  function ParseFromString(fields: seq<Field>, vs: seq<Value>, s: seq<Byte>): (r: seq<Value>)
    requires HasAll(fields, vs)
    ensures HasAll(fields, r)
  {
    ReadMessage(fields, vs, s).value
  }

  lemma {:induction false} HasOneMore(schema: Schema, ms: seq<Value>, vs: seq<Value>)
    requires HasEach(schema, ms) && HasAll(schema.fields, vs)
    ensures HasEach(schema, ms + [Msg(vs)])
    decreases |ms|
  {
    var all := ms + [Msg(vs)];
    if ms == [] {
      assert all[1..] == [];
    } else {
      HasOneMore(schema, ms[1..], vs);
      assert all[1..] == ms[1..] + [Msg(vs)];
    }
  }
}

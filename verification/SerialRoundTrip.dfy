/** Parsing an encoding gives the value back, at any depth and whatever the target held before. */
module SerialRoundTrip {
  import opened Bytes
  import opened SerialWire
  import opened SerialSchema
  import opened SerialRead

  // ---- what a member holds after `put` was read over `was` --------------------------------

  // Numbers and strings are replaced, vectors grow, nested messages merge; a fixed64 zero and an
  // element or message without a byte of its own leave no trace.
  function Merge(f: Field, was: Value, put: Value): (v: Value)
    requires Has(f, was) && Has(f, put)
    ensures Has(f, v)
    decreases f, 0, 0
  {
    match f.ty
    case One(sc) => if sc.F64T? && put.n == 0 then was else put
    case Str => put
    case Packed(_) => Nums(was.ns + put.ns)
    case Strs => Texts(was.ss + put.ss)
    case Sub(schema) => Msg(MergeAll(schema.fields, was.vs, put.vs))
    case Subs(schema) => Msgs(MergeSubs(schema, was.ms, put.ms))
  }

  function MergeSubs(schema: Schema, was: seq<Value>, put: seq<Value>): (ms: seq<Value>)
    requires HasEach(schema, was) && HasEach(schema, put)
    ensures HasEach(schema, ms)
    decreases schema, 1, |put|
  {
    if put == [] then was
    else if Encode(schema.fields, put[0].vs) == [] then MergeSubs(schema, was, put[1..])
    else
      var m := MergeAll(schema.fields, BlankAll(schema.fields), put[0].vs);
      HasOneMore(schema, was, m);
      MergeSubs(schema, was + [Msg(m)], put[1..])
  }

  function MergeAll(fields: seq<Field>, was: seq<Value>, put: seq<Value>): (vs: seq<Value>)
    requires HasAll(fields, was) && HasAll(fields, put)
    ensures HasAll(fields, vs)
    decreases fields, 0, 0
  {
    if fields == [] then []
    else
      var vs := [Merge(fields[0], was[0], put[0])] + MergeAll(fields[1..], was[1..], put[1..]);
      assert vs[1..] == MergeAll(fields[1..], was[1..], put[1..]);
      vs
  }

  // ---- indexing a message -------------------------------------------------------------------

  lemma {:induction false} HasAt(fields: seq<Field>, vs: seq<Value>, i: nat)
    requires HasAll(fields, vs) && i < |fields|
    ensures Has(fields[i], vs[i])
    decreases i
  {
    if i > 0 {
      HasAt(fields[1..], vs[1..], i - 1);
    }
  }

  lemma HasLength(fields: seq<Field>, vs: seq<Value>)
    requires HasAll(fields, vs)
    ensures |vs| == |fields|
  {
  }

  lemma {:induction false} HasUpdate(fields: seq<Field>, vs: seq<Value>, i: nat, v: Value)
    requires HasAll(fields, vs) && i < |fields| && Has(fields[i], v)
    ensures HasAll(fields, vs[i := v])
    decreases i
  {
    if i == 0 {
      assert vs[0 := v][1..] == vs[1..];
    } else {
      HasUpdate(fields[1..], vs[1..], i - 1, v);
      assert vs[i := v][1..] == vs[1..][i - 1 := v];
    }
  }

  // ---- one record: tag, body ------------------------------------------------------------------

  lemma TagRead(tag: nat, wireType: nat, rest: seq<Byte>)
    requires 1 <= tag < 0x2000_0000 && wireType < 8
    ensures ReadVarint32(TagBytes(tag, wireType) + rest) == ReadNum(true, 8 * tag + wireType, rest)
    ensures (8 * tag + wireType) / 8 == tag && (8 * tag + wireType) % 8 == wireType
  {
    hide Varint, ReadVarint32;
    KeyFits(tag, wireType);
    ReadBack32(8 * tag + wireType, rest);
  }

  lemma KeyFits(tag: nat, wireType: nat)
    requires tag < 0x2000_0000 && wireType < 8
    ensures MakeTagWireType(tag, wireType) == 8 * tag + wireType < TWO32
  {
  }

  lemma {:induction false} VisitMiss(fields: seq<Field>, vs: seq<Value>, tag: nat, wireType: nat, s: seq<Byte>)
    requires HasAll(fields, vs) && forall i | 0 <= i < |fields| :: fields[i].tag != tag
    ensures Visit(fields, vs, tag, wireType, s) == Got(true, vs, s)
    decreases |fields|
  {
    if fields != [] {
      VisitMiss(fields[1..], vs[1..], tag, wireType, s);
      assert vs == [vs[0]] + vs[1..];
    }
  }

  lemma {:induction false} VisitHit(fields: seq<Field>, vs: seq<Value>, i: nat, wireType: nat, s: seq<Byte>)
    requires HasAll(fields, vs) && i < |fields| && Has(fields[i], vs[i])
    requires forall j, k | 0 <= j < k < |fields| :: fields[j].tag != fields[k].tag
    ensures var r := ReadField(fields[i], vs[i], wireType, s);
            Visit(fields, vs, fields[i].tag, wireType, s) == Got(true, vs[i := r.value], r.rest)
    decreases |fields|
  {
    hide ReadField;
    if i == 0 {
      var r := ReadField(fields[0], vs[0], wireType, s);
      VisitMiss(fields[1..], vs[1..], fields[0].tag, wireType, r.rest);
      assert vs[0 := r.value] == [r.value] + vs[1..];
    } else {
      var r := ReadField(fields[i], vs[i], wireType, s);
      VisitHit(fields[1..], vs[1..], i - 1, wireType, s);
      assert vs[i := r.value] == [vs[0]] + vs[1..][i - 1 := r.value];
    }
  }

  lemma RecordStep(fields: seq<Field>, vs: seq<Value>, tag: nat, wireType: nat, s: seq<Byte>, rest: seq<Byte>)
    requires HasAll(fields, vs) && ReadVarint32(s) == ReadNum(true, 8 * tag + wireType, rest) && wireType < 8
    ensures var r := Visit(fields, vs, tag, wireType, rest);
            ReadMessage(fields, vs, s) == ReadMessage(fields, r.value, r.rest)
  {
    hide Visit, ReadVarint32, HasAll;
    var r := Visit(fields, vs, (8 * tag + wireType) / 8, (8 * tag + wireType) % 8, rest);
    assert ReadMessage(fields, vs, s) == ReadMessage(fields, r.value, r.rest);
  }

  // A record whose body the field reads exactly is consumed, and its field set.
  lemma RecordRead(fields: seq<Field>, vs: seq<Value>, i: nat, wireType: nat, body: seq<Byte>, tail: seq<Byte>, v: Value)
    requires HasAll(fields, vs) && |vs| == |fields| && i < |fields| && TagsOk(fields) && wireType < 8
    requires Has(fields[i], vs[i])
    requires ReadField(fields[i], vs[i], wireType, body + tail).value == v
    requires ReadField(fields[i], vs[i], wireType, body + tail).rest == tail
    ensures HasAll(fields, vs[i := v])
    ensures ReadMessage(fields, vs, TagBytes(fields[i].tag, wireType) + body + tail) == ReadMessage(fields, vs[i := v], tail)
  {
    hide ReadField, Visit, ReadVarint32, TagBytes, ReadMessage, HasAll;
    var tag := fields[i].tag;
    Assoc(TagBytes(tag, wireType), body, tail);
    TagRead(tag, wireType, body + tail);
    RecordStep(fields, vs, tag, wireType, TagBytes(tag, wireType) + body + tail, body + tail);
    VisitHit(fields, vs, i, wireType, body + tail);
    HasUpdate(fields, vs, i, v);
  }

  // ---- the body of each kind of field --------------------------------------------------------

  lemma OneReads(sc: Scalar, was: int, v: int, tail: seq<Byte>)
    requires sc.InRange(was) && sc.InRange(v)
    ensures ParseOne(sc, was, WireTypeOf(sc), EncodeScalar(sc, v) + tail) == Got(true, v, tail)
  {
    hide EncodeScalar, ReadScalar, FromWire, AfterFailure;
    ScalarRoundTrip(sc, v, tail);
  }

  // The length in front of a body, and the body as its limited reader sees it.
  lemma LengthRead(body: seq<Byte>, tail: seq<Byte>)
    requires |body| < TWO64
    ensures ReadVarint64(Varint(|body|) + body + tail) == ReadNum(true, |body|, body + tail)
    ensures Limited(body + tail, |body|) == body && (body + tail)[|body|..] == tail
  {
    Assoc(Varint(|body|), body, tail);
    ReadBack64(|body|, body + tail);
  }

  lemma TextReads(was: seq<Byte>, s: seq<Byte>, tail: seq<Byte>)
    requires |was| < TWO31 && |s| < TWO31
    ensures ParseText(was, LENGTH_DELIMETED, Varint(|s|) + s + tail) == Got(true, s, tail)
  {
    hide ReadVarint64, Varint;
    LengthRead(s, tail);
    assert Resize(was, |s|)[|s|..] == [];
    assert (s + tail)[..|s|] + [] == s;
  }

  lemma {:induction false} PackedLoopReads(sc: Scalar, ns: seq<int>, acc: seq<int>)
    requires forall i | 0 <= i < |ns| :: sc.InRange(ns[i])
    requires forall i | 0 <= i < |acc| :: sc.InRange(acc[i])
    ensures ReadPackedLoop(sc, EncodeNums(sc, ns), |EncodeNums(sc, ns)|, acc) == Got(true, acc + ns, [])
    decreases |ns|
  {
    hide EncodeScalar, ReadScalar, FromWire;
    if ns == [] {
      assert acc + [] == acc;
    } else {
      var rest := EncodeNums(sc, ns[1..]);
      ScalarRoundTrip(sc, ns[0], rest);
      PackedLoopReads(sc, ns[1..], acc + [ns[0]]);
      assert acc + [ns[0]] + ns[1..] == acc + ns;
    }
  }

  lemma PackedReads(sc: Scalar, was: seq<int>, ns: seq<int>, tail: seq<Byte>)
    requires forall i | 0 <= i < |was| :: sc.InRange(was[i])
    requires forall i | 0 <= i < |ns| :: sc.InRange(ns[i])
    requires |EncodeNums(sc, ns)| < TWO64
    ensures var body := EncodeNums(sc, ns);
            ParsePackedVector(sc, was, LENGTH_DELIMETED, Varint(|body|) + body + tail) == Got(true, was + ns, tail)
  {
    hide ReadVarint64, Varint, ReadPackedLoop, EncodeNums;
    LengthRead(EncodeNums(sc, ns), tail);
    PackedLoopReads(sc, ns, was);
    assert [] + tail == tail;
  }

  // ---- fields and messages, by nesting ----------------------------------------------------------

  // A member of the right type whose encoding has a length that fits the length prefix.
  predicate Fits(f: Field, put: Value) {
    Has(f, put) && FieldTagsOk(f) && |EncodeField(f, put)| < TWO64
  }

  lemma {:induction false} SubReads(schema: Schema, was: seq<Value>, put: seq<Value>, tail: seq<Byte>)
    requires HasAll(schema.fields, was) && HasAll(schema.fields, put) && TagsOk(schema.fields)
    requires |Encode(schema.fields, put)| < TWO64
    ensures var body := Encode(schema.fields, put);
            ParseSub(schema, was, LENGTH_DELIMETED, Varint(|body|) + body + tail) ==
            Got(true, MergeAll(schema.fields, was, put), tail)
    decreases schema, 0, 0
  {
    hide ReadVarint64, Varint, ReadMessage, Encode, MergeAll;
    var body := Encode(schema.fields, put);
    LengthRead(body, tail);
    MessageReads(schema.fields, was, put, []);
    assert body + [] == body;
    NothingToRead(schema.fields, MergeAll(schema.fields, was, put));
    assert [] + tail == tail;
  }

  lemma NothingToRead(fields: seq<Field>, vs: seq<Value>)
    requires HasAll(fields, vs)
    ensures ReadMessage(fields, vs, []) == Got(true, vs, [])
  {
  }

  // One record of field i with a delimited body.
  lemma DelimitedRecord(fields: seq<Field>, vs: seq<Value>, i: nat, body: seq<Byte>, tail: seq<Byte>, v: Value)
    requires HasAll(fields, vs) && |vs| == |fields| && i < |fields| && TagsOk(fields)
    requires Has(fields[i], vs[i])
    requires ReadField(fields[i], vs[i], LENGTH_DELIMETED, Varint(|body|) + body + tail).value == v
    requires ReadField(fields[i], vs[i], LENGTH_DELIMETED, Varint(|body|) + body + tail).rest == tail
    ensures HasAll(fields, vs[i := v])
    ensures ReadMessage(fields, vs, Delimited(fields[i].tag, body) + tail) == ReadMessage(fields, vs[i := v], tail)
  {
    hide ReadField, ReadMessage, Varint;
    RecordRead(fields, vs, i, LENGTH_DELIMETED, Varint(|body|) + body, tail, v);
    Assoc(TagBytes(fields[i].tag, LENGTH_DELIMETED), Varint(|body|), body);
  }

  lemma {:induction false} TextsRead(fields: seq<Field>, vs: seq<Value>, i: nat, ss: seq<seq<Byte>>, tail: seq<Byte>)
    requires HasAll(fields, vs) && |vs| == |fields| && i < |fields| && TagsOk(fields) && fields[i].ty.Strs?
    requires Has(fields[i], vs[i]) && forall k | 0 <= k < |ss| :: |ss[k]| < TWO31
    ensures var v := Texts(vs[i].ss + ss);
            && HasAll(fields, vs[i := v])
            && ReadMessage(fields, vs, EncodeTexts(fields[i].tag, ss) + tail) == ReadMessage(fields, vs[i := v], tail)
    decreases |ss|
  {
    hide ReadMessage, Varint, TagBytes, HasAll, TagsOk, ParseText;
    if ss == [] {
      assert vs[i].ss + ss == vs[i].ss;
      assert vs[i := vs[i]] == vs;
      assert [] + tail == tail;
    } else {
      var body, more := ss[0], EncodeTexts(fields[i].tag, ss[1..]);
      var v := Texts(vs[i].ss + [body]);
      TextReads([], body, more + tail);
      DelimitedRecord(fields, vs, i, body, more + tail, v);
      Assoc(Delimited(fields[i].tag, body), more, tail);
      TextsRead(fields, vs[i := v], i, ss[1..], tail);
      assert vs[i].ss + [body] + ss[1..] == vs[i].ss + ss;
      assert vs[i := v][i := Texts(vs[i].ss + ss)] == vs[i := Texts(vs[i].ss + ss)];
    }
  }

  lemma {:induction false} SubsRead(fields: seq<Field>, vs: seq<Value>, i: nat, schema: Schema, ms: seq<Value>, tail: seq<Byte>)
    requires HasAll(fields, vs) && |vs| == |fields| && i < |fields| && TagsOk(fields) && fields[i].ty == Subs(schema)
    requires Has(fields[i], vs[i]) && HasEach(schema, ms) && TagsOk(schema.fields)
    requires |EncodeSubs(fields[i].tag, schema, ms)| < TWO64
    ensures var v := Msgs(MergeSubs(schema, vs[i].ms, ms));
            && HasAll(fields, vs[i := v])
            && ReadMessage(fields, vs, EncodeSubs(fields[i].tag, schema, ms) + tail) == ReadMessage(fields, vs[i := v], tail)
    decreases schema, 1, |ms|
  {
    hide ReadMessage, Varint, TagBytes, HasAll, TagsOk, ParseSub, Encode, MergeAll, BlankAll;
    if ms == [] {
      assert vs[i := Msgs(vs[i].ms)] == vs;
      assert [] + tail == tail;
    } else {
      var body, more := Encode(schema.fields, ms[0].vs), EncodeSubs(fields[i].tag, schema, ms[1..]);
      if body == [] {
        SubsRead(fields, vs, i, schema, ms[1..], tail);
        assert [] + more == more;
      } else {
        var m := MergeAll(schema.fields, BlankAll(schema.fields), ms[0].vs);
        var v := Msgs(vs[i].ms + [Msg(m)]);
        HasOneMore(schema, vs[i].ms, m);
        SubReads(schema, BlankAll(schema.fields), ms[0].vs, more + tail);
        DelimitedRecord(fields, vs, i, body, more + tail, v);
        Assoc(Delimited(fields[i].tag, body), more, tail);
        SubsRead(fields, vs[i := v], i, schema, ms[1..], tail);
        var u := Msgs(MergeSubs(schema, vs[i].ms, ms));
        assert vs[i := v][i := u] == vs[i := u];
      }
    }
  }

  // The records of one field, read into a message, merge that field and leave the others alone.
  lemma {:induction false} FieldReads(fields: seq<Field>, vs: seq<Value>, i: nat, put: Value, tail: seq<Byte>)
    requires HasAll(fields, vs) && |vs| == |fields| && i < |fields| && TagsOk(fields)
    requires Has(fields[i], vs[i]) && Fits(fields[i], put)
    ensures var v := Merge(fields[i], vs[i], put);
            && HasAll(fields, vs[i := v])
            && ReadMessage(fields, vs, EncodeField(fields[i], put) + tail) == ReadMessage(fields, vs[i := v], tail)
    decreases fields[i], 0, 0
  {
    hide ReadMessage, Varint, TagBytes, HasAll, TagsOk, ParseOne, ParseText, ParseSub, ParsePackedVector, Encode,
         EncodeScalar, EncodeNums, EncodeTexts, EncodeSubs, MergeAll, MergeSubs, HasEach;
    var f := fields[i];
    assert vs[i := vs[i]] == vs;
    assert [] + tail == tail;
    match f.ty
    case One(sc) =>
      if !(sc.F64T? && put.n == 0) {
        OneReads(sc, vs[i].n, put.n, tail);
        RecordRead(fields, vs, i, WireTypeOf(sc), EncodeScalar(sc, put.n), tail, put);
      }
    case Str =>
      TextReads(vs[i].s, put.s, tail);
      DelimitedRecord(fields, vs, i, put.s, tail, put);
    case Packed(sc) => PackedFieldReads(fields, vs, i, sc, put.ns, tail);
    case Strs => TextsRead(fields, vs, i, put.ss, tail);
    case Sub(schema) => SubFieldReads(fields, vs, i, schema, put.vs, tail);
    case Subs(schema) => SubsRead(fields, vs, i, schema, put.ms, tail);
  }

  lemma PackedFieldReads(fields: seq<Field>, vs: seq<Value>, i: nat, sc: Scalar, ns: seq<int>, tail: seq<Byte>)
    requires HasAll(fields, vs) && |vs| == |fields| && i < |fields| && TagsOk(fields) && fields[i].ty == Packed(sc)
    requires Has(fields[i], vs[i]) && Fits(fields[i], Nums(ns))
    ensures var v := Nums(vs[i].ns + ns);
            && HasAll(fields, vs[i := v])
            && ReadMessage(fields, vs, EncodeField(fields[i], Nums(ns)) + tail) == ReadMessage(fields, vs[i := v], tail)
  {
    hide ReadMessage, Varint, TagBytes, HasAll, TagsOk, ParsePackedVector, EncodeNums;
    var body := EncodeNums(sc, ns);
    if body == [] {
      EmptyNums(sc, ns);
      assert vs[i].ns + [] == vs[i].ns;
      assert vs[i := vs[i]] == vs;
      assert [] + tail == tail;
    } else {
      PackedReads(sc, vs[i].ns, ns, tail);
      DelimitedRecord(fields, vs, i, body, tail, Nums(vs[i].ns + ns));
    }
  }

  lemma EmptyNums(sc: Scalar, ns: seq<int>)
    requires forall i | 0 <= i < |ns| :: sc.InRange(ns[i])
    ensures EncodeNums(sc, ns) == [] <==> ns == []
  {
  }

  lemma {:induction false} SubFieldReads(fields: seq<Field>, vs: seq<Value>, i: nat, schema: Schema, put: seq<Value>, tail: seq<Byte>)
    requires HasAll(fields, vs) && |vs| == |fields| && i < |fields| && TagsOk(fields) && fields[i].ty == Sub(schema)
    requires Has(fields[i], vs[i]) && HasAll(schema.fields, put) && TagsOk(schema.fields)
    requires |EncodeSub(fields[i].tag, Encode(schema.fields, put))| < TWO64
    ensures var v := Msg(MergeAll(schema.fields, vs[i].vs, put));
            && HasAll(fields, vs[i := v])
            && ReadMessage(fields, vs, EncodeSub(fields[i].tag, Encode(schema.fields, put)) + tail) == ReadMessage(fields, vs[i := v], tail)
    decreases schema, 2, 0
  {
    hide ReadMessage, Varint, TagBytes, HasAll, TagsOk, ParseSub, Encode, MergeAll;
    var body := Encode(schema.fields, put);
    if body == [] {
      // what has no byte changes nothing: reading it is reading nothing
      MessageReads(schema.fields, vs[i].vs, put, []);
      NothingToRead(schema.fields, MergeAll(schema.fields, vs[i].vs, put));
      NothingToRead(schema.fields, vs[i].vs);
      assert vs[i := vs[i]] == vs;
      assert [] + tail == tail;
    } else {
      SubReads(schema, vs[i].vs, put, tail);
      DelimitedRecord(fields, vs, i, body, tail, Msg(MergeAll(schema.fields, vs[i].vs, put)));
    }
  }

  // Fields j and later of a message.
  lemma {:induction false} RestReads(fields: seq<Field>, vs: seq<Value>, put: seq<Value>, j: nat, tail: seq<Byte>)
    requires HasAll(fields, vs) && HasAll(fields, put) && TagsOk(fields) && j <= |fields|
    requires HasAll(fields[j..], vs[j..]) && HasAll(fields[j..], put[j..])
    requires |Encode(fields[j..], put[j..])| < TWO64
    ensures var us := vs[..j] + MergeAll(fields[j..], vs[j..], put[j..]);
            && HasAll(fields, us)
            && ReadMessage(fields, vs, Encode(fields[j..], put[j..]) + tail) == ReadMessage(fields, us, tail)
    decreases fields, 0, |fields| - j
  {
    hide ReadMessage, EncodeField, Has, Merge, Encode, MergeAll, HasAll, TagsOk;
    HasLength(fields, vs);
    HasLength(fields, put);
    if j == |fields| {
      NoFields();
      assert fields[j..] == [] && vs[j..] == [] && put[j..] == [];
      assert vs[..j] + [] == vs;
      assert [] + tail == tail;
    } else {
      PartsAt(fields, vs, put, j);
      var f, more := fields[j], Encode(fields[j + 1..], put[j + 1..]);
      TagsAt(fields, j);
      Assoc(EncodeField(f, put[j]), more, tail);
      var v := Merge(f, vs[j], put[j]);
      FieldReads(fields, vs, j, put[j], more + tail);
      var ws := vs[j := v];
      assert ws[j + 1..] == vs[j + 1..];
      RestReads(fields, ws, put, j + 1, tail);
      assert ws[..j + 1] == vs[..j] + [v];
      Assoc(vs[..j], [v], MergeAll(fields[j + 1..], vs[j + 1..], put[j + 1..]));
    }
  }

  lemma NoFields()
    ensures Encode([], []) == [] && MergeAll([], [], []) == []
  {
  }

  lemma TagsAt(fields: seq<Field>, j: nat)
    requires TagsOk(fields) && j < |fields|
    ensures FieldTagsOk(fields[j])
  {
  }

  // The member at j in front of those behind it.
  lemma PartsAt(fields: seq<Field>, vs: seq<Value>, put: seq<Value>, j: nat)
    requires |vs| == |put| == |fields| && j < |fields|
    requires HasAll(fields[j..], vs[j..]) && HasAll(fields[j..], put[j..])
    ensures Has(fields[j], vs[j]) && Has(fields[j], put[j])
    ensures HasAll(fields[j + 1..], vs[j + 1..]) && HasAll(fields[j + 1..], put[j + 1..])
    ensures Encode(fields[j..], put[j..]) == EncodeField(fields[j], put[j]) + Encode(fields[j + 1..], put[j + 1..])
    ensures MergeAll(fields[j..], vs[j..], put[j..]) ==
            [Merge(fields[j], vs[j], put[j])] + MergeAll(fields[j + 1..], vs[j + 1..], put[j + 1..])
  {
    hide EncodeField, Has, Merge;
    assert fields[j..][1..] == fields[j + 1..] && vs[j..][1..] == vs[j + 1..] && put[j..][1..] == put[j + 1..];
  }

  // ParseFromString after Encode: each member is merged with what the target held, and
  // parsing goes on with what follows the encoding.
  lemma {:induction false} MessageReads(fields: seq<Field>, vs: seq<Value>, put: seq<Value>, tail: seq<Byte>)
    requires HasAll(fields, vs) && HasAll(fields, put) && TagsOk(fields)
    requires |Encode(fields, put)| < TWO64
    ensures ReadMessage(fields, vs, Encode(fields, put) + tail) == ReadMessage(fields, MergeAll(fields, vs, put), tail)
    decreases fields, 1, 0
  {
    hide ReadMessage, Encode, HasAll, MergeAll;
    assert fields[0..] == fields && vs[0..] == vs && put[0..] == put;
    RestReads(fields, vs, put, 0, tail);
    assert vs[..0] + MergeAll(fields, vs, put) == MergeAll(fields, vs, put);
  }
}

/** Which values survive the trip: over any target, into a fresh one, padded, and twice in a row. */
module SerialFresh {
  import opened Bytes
  import opened SerialWire
  import opened SerialSchema
  import opened SerialRead
  import opened SerialRoundTrip

  // ---- schemas without vectors and without fixed64 -----------------------------------------

  // Every member is always written and replaces what was there.
  predicate SolidField(f: Field)
    decreases f, 0
  {
    match f.ty
    case One(sc) => !sc.F64T?
    case Str => true
    case Sub(schema) => Solid(schema.fields)
    case _ => false
  }

  predicate Solid(fields: seq<Field>)
    decreases fields, 0
  {
    forall i | 0 <= i < |fields| :: SolidField(fields[i])
  }

  lemma {:induction false} SolidMerge(f: Field, was: Value, put: Value)
    requires Has(f, was) && Has(f, put) && SolidField(f)
    ensures Merge(f, was, put) == put
    decreases f, 0
  {
    match f.ty
    case Sub(schema) => SolidMergeAll(schema.fields, was.vs, put.vs);
    case _ =>
  }

  lemma {:induction false} SolidMergeAll(fields: seq<Field>, was: seq<Value>, put: seq<Value>)
    requires HasAll(fields, was) && HasAll(fields, put) && Solid(fields)
    ensures MergeAll(fields, was, put) == put
    decreases fields, 0
  {
    if fields != [] {
      SolidMerge(fields[0], was[0], put[0]);
      SolidMergeAll(fields[1..], was[1..], put[1..]);
      assert put == [put[0]] + put[1..];
    }
  }

  // ---- padding and repetition -----------------------------------------------------------------

  function Zeros(n: nat): (s: seq<Byte>)
    ensures |s| == n
  {
    seq(n, _ => 0)
  }

  lemma ZeroKey(n: nat)
    requires n > 0
    ensures ReadVarint32(Zeros(n)) == ReadNum(true, 0, Zeros(n - 1))
  {
    assert Zeros(n) == [0] + Zeros(n - 1);
    ReadOneByte(0, Zeros(n - 1), 5, 1, TWO32, 0);
  }

  lemma NoTagZero(fields: seq<Field>)
    requires TagsOk(fields)
    ensures forall i | 0 <= i < |fields| :: fields[i].tag != 0
  {
  }

  // A zero byte is a key with tag 0, which no field has.
  lemma {:induction false} ZerosRead(fields: seq<Field>, vs: seq<Value>, n: nat)
    requires HasAll(fields, vs) && TagsOk(fields)
    ensures ReadMessage(fields, vs, Zeros(n)) == Got(true, vs, [])
    decreases n
  {
    hide ReadMessage, Visit, HasAll, TagsOk, ReadVarint32, Zeros;
    if n == 0 {
      NothingToRead(fields, vs);
    } else {
      ZeroKey(n);
      NoTagZero(fields);
      RecordStep(fields, vs, 0, 0, Zeros(n), Zeros(n - 1));
      VisitMiss(fields, vs, 0, 0, Zeros(n - 1));
      ZerosRead(fields, vs, n - 1);
    }
  }

  // Parsing a padded encoding is parsing the encoding.
  lemma PaddingChangesNothing(fields: seq<Field>, was: seq<Value>, put: seq<Value>, n: nat)
    requires HasAll(fields, was) && HasAll(fields, put) && TagsOk(fields)
    requires |Encode(fields, put)| < TWO64
    ensures ParseFromString(fields, was, Encode(fields, put)) == MergeAll(fields, was, put)
    ensures ParseFromString(fields, was, Encode(fields, put) + Zeros(n)) == MergeAll(fields, was, put)
  {
    hide ReadMessage, MergeAll, Encode;
    var s := Encode(fields, put);
    MessageReads(fields, was, put, Zeros(n));
    ZerosRead(fields, MergeAll(fields, was, put), n);
    MessageReads(fields, was, put, []);
    NothingToRead(fields, MergeAll(fields, was, put));
    assert s + [] == s;
  }

  // The members of a solid schema come back whatever the target held.
  lemma SolidRoundTrip(fields: seq<Field>, was: seq<Value>, put: seq<Value>, n: nat)
    requires HasAll(fields, was) && HasAll(fields, put) && TagsOk(fields) && Solid(fields)
    requires |Encode(fields, put)| < TWO64
    ensures ParseFromString(fields, was, Encode(fields, put)) == put
    ensures ParseFromString(fields, was, Encode(fields, put) + Zeros(n)) == put
  {
    hide ParseFromString, Encode, MergeAll, HasAll, TagsOk, Solid;
    PaddingChangesNothing(fields, was, put, n);
    SolidMergeAll(fields, was, put);
  }

  lemma SecondOfTwo(fields: seq<Field>, was: seq<Value>, put: seq<Value>, next: seq<Value>)
    requires HasAll(fields, was) && HasAll(fields, put) && HasAll(fields, next) && TagsOk(fields)
    requires |Encode(fields, put)| < TWO64 && |Encode(fields, next)| < TWO64
    ensures ParseFromString(fields, was, Encode(fields, put) + Encode(fields, next)) ==
            MergeAll(fields, MergeAll(fields, was, put), next)
    ensures Solid(fields) ==>
              ParseFromString(fields, was, Encode(fields, put) + Encode(fields, next)) == next
  {
    hide ReadMessage, MergeAll, Encode, Solid;
    var mid := MergeAll(fields, was, put);
    MessageReads(fields, was, put, Encode(fields, next));
    MessageReads(fields, mid, next, []);
    NothingToRead(fields, MergeAll(fields, mid, next));
    assert Encode(fields, next) + [] == Encode(fields, next);
    if Solid(fields) {
      SolidMergeAll(fields, mid, next);
    }
  }

  // ---- any schema, into a fresh target ----------------------------------------------------------

  // No vector of messages has an element that encodes to nothing.
  predicate EachWritten(f: Field, v: Value)
    requires Has(f, v)
    decreases f, 0, 0
  {
    match f.ty
    case Sub(schema) => AllWritten(schema.fields, v.vs)
    case Subs(schema) => ElementsWritten(schema, v.ms)
    case _ => true
  }

  predicate ElementsWritten(schema: Schema, ms: seq<Value>)
    requires HasEach(schema, ms)
    decreases schema, 1, |ms|
  {
    ms == [] ||
    (Encode(schema.fields, ms[0].vs) != [] && AllWritten(schema.fields, ms[0].vs) && ElementsWritten(schema, ms[1..]))
  }

  predicate AllWritten(fields: seq<Field>, vs: seq<Value>)
    requires HasAll(fields, vs)
    decreases fields, 0, 0
  {
    fields == [] || (EachWritten(fields[0], vs[0]) && AllWritten(fields[1..], vs[1..]))
  }

  lemma {:induction false} FreshMerge(f: Field, put: Value)
    requires Has(f, put)
    ensures Merge(f, Blank(f), put) == put <==> EachWritten(f, put)
    decreases f, 0, 0
  {
    hide Encode;
    match f.ty
    case One(_) =>
    case Str =>
    case Packed(_) => assert [] + put.ns == put.ns;
    case Strs => assert [] + put.ss == put.ss;
    case Sub(schema) => FreshMergeAll(schema.fields, put.vs);
    case Subs(schema) =>
      FreshMergeSubs(schema, [], put.ms);
      assert [] + put.ms == put.ms;
  }

  lemma {:induction false} FreshMergeSubs(schema: Schema, was: seq<Value>, put: seq<Value>)
    requires HasEach(schema, was) && HasEach(schema, put)
    ensures was <= MergeSubs(schema, was, put) && |MergeSubs(schema, was, put)| <= |was| + |put|
    ensures MergeSubs(schema, was, put) == was + put <==> ElementsWritten(schema, put)
    decreases schema, 1, |put|
  {
    hide Encode, MergeAll, AllWritten, HasAll, BlankAll;
    if put == [] {
      assert was + [] == was;
    } else if Encode(schema.fields, put[0].vs) == [] {
      FreshMergeSubs(schema, was, put[1..]);
    } else {
      var m := MergeAll(schema.fields, BlankAll(schema.fields), put[0].vs);
      HasOneMore(schema, was, m);
      FreshMergeAll(schema.fields, put[0].vs);
      FreshMergeSubs(schema, was + [Msg(m)], put[1..]);
      var r := MergeSubs(schema, was, put);
      assert r[|was|] == Msg(m) && (was + put)[|was|] == put[0];
      if Msg(m) == put[0] {
        assert was + [Msg(m)] + put[1..] == was + put;
      }
    }
  }

  lemma {:induction false} FreshMergeAll(fields: seq<Field>, put: seq<Value>)
    requires HasAll(fields, put)
    ensures MergeAll(fields, BlankAll(fields), put) == put <==> AllWritten(fields, put)
    decreases fields, 0, 0
  {
    if fields != [] {
      FreshMerge(fields[0], put[0]);
      FreshMergeAll(fields[1..], put[1..]);
      assert BlankAll(fields)[1..] == BlankAll(fields[1..]);
      var r := MergeAll(fields, BlankAll(fields), put);
      assert r[1..] == MergeAll(fields[1..], BlankAll(fields[1..]), put[1..]);
      assert put == [put[0]] + put[1..] && r == [r[0]] + r[1..];
    }
  }

  // A message of any schema, vectors and fixed64 members included, comes back from a fresh target
  // exactly if no vector in it, at any depth, has an element that encodes to nothing.
  lemma FreshRoundTripIff(fields: seq<Field>, put: seq<Value>)
    requires HasAll(fields, put) && TagsOk(fields) && |Encode(fields, put)| < TWO64
    ensures ParseFromString(fields, BlankAll(fields), Encode(fields, put)) == put <==> AllWritten(fields, put)
  {
    hide ParseFromString, Encode, MergeAll, HasAll, TagsOk, AllWritten;
    PaddingChangesNothing(fields, BlankAll(fields), put, 0);
    FreshMergeAll(fields, put);
  }
}

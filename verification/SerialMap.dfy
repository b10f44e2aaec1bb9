/** std::map members in src/common/serial_struct_define.h: WriteMap and ReadMap. */
module SerialMap {
  import opened Bytes
  import opened SerialWire
  import opened SerialSchema
  import opened SerialRead
  import opened SerialRoundTrip
  import opened SerialFresh
  import opened SerialWriter

  // ---- entries ---------------------------------------------------------------------------

  // The member types for key and value: a key is a number or a string, a value a message as well. An
  // entry is a message of two fields tagged 1 and 2.
  datatype MapType = MapType(key: FieldType, val: FieldType) {
    predicate Valid() {
      && (key.One? || key.Str?)
      && (val.One? || val.Str? || (val.Sub? && TagsOk(val.schema.fields)))
    }

    function Fields(): seq<Field> {
      [Field(1, key), Field(2, val)]
    }
  }

  datatype Entry = Entry(key: Value, val: Value) {
    predicate Fits(mt: MapType) {
      Has(mt.Fields()[0], key) && Has(mt.Fields()[1], val) && EachWritten(mt.Fields()[1], val)
    }

    function Members(): seq<Value> {
      [key, val]
    }
  }

  // Serialize with `force`: nothing is left out, not even a zero or an empty message.
  function Forced(f: Field, v: Value): seq<Byte>
    requires Has(f, v) && (f.ty.One? || f.ty.Str? || f.ty.Sub?)
  {
    match f.ty
    case One(sc) => TagBytes(f.tag, WireTypeOf(sc)) + EncodeScalar(sc, v.n)
    case Sub(schema) => Delimited(f.tag, Encode(schema.fields, v.vs))
    case Str => Delimited(f.tag, v.s)
  }

  function EncodeEntry(mt: MapType, e: Entry): (s: seq<Byte>)
    requires mt.Valid() && e.Fits(mt)
    ensures s != []
  {
    Forced(mt.Fields()[0], e.key) + Forced(mt.Fields()[1], e.val)
  }

  predicate AllFit(mt: MapType, es: seq<Entry>)
    requires mt.Valid()
  {
    forall i | 0 <= i < |es| :: es[i].Fits(mt) && |EncodeEntry(mt, es[i])| < TWO64
  }

  // WriteMap: one record an entry, in the order of the iterator.
  function EncodeMap(tag: nat, mt: MapType, es: seq<Entry>): seq<Byte>
    requires mt.Valid() && AllFit(mt, es)
  {
    if es == [] then [] else Delimited(tag, EncodeEntry(mt, es[0])) + EncodeMap(tag, mt, es[1..])
  }

  // ---- writing ----------------------------------------------------------------------------

  method WriteForced(f: Field, v: Value, out: Writer)
    requires Has(f, v) && (f.ty.One? || f.ty.Str? || f.ty.Sub?) && |Forced(f, v)| < TWO64
    modifies out
    ensures out.sink == old(out.sink).Write(Forced(f, v))
  {
    hide Sink.Write, Encode, HasAll, Varint, EncodeScalar, TagBytes;
    match f.ty {
      case One(sc) =>
        out.WriteTagWriteType(f.tag, WireTypeOf(sc));
        out.WriteNumber(sc, v.n);
        WriteTwice(old(out.sink), TagBytes(f.tag, WireTypeOf(sc)), EncodeScalar(sc, v.n));
      case Str => out.WriteText(f.tag, v.s);
      case Sub(schema) =>
        ghost var body := Encode(schema.fields, v.vs);
        var sizeCollector := new Writer(WriterSizeCollector(0));
        sizeCollector.WriteMessage(schema.fields, v.vs);
        Counted(body);
        out.WriteHead(f.tag, sizeCollector.sink.byteSize);
        ghost var head := TagBytes(f.tag, LENGTH_DELIMETED) + Varint(|body|);
        assert out.sink == old(out.sink).Write(head);
        out.WriteMessage(schema.fields, v.vs);
        WriteTwice(old(out.sink), head, body);
    }
  }

  method WriteMapKeyValue(mt: MapType, e: Entry, out: Writer)
    requires mt.Valid() && e.Fits(mt) && |EncodeEntry(mt, e)| < TWO64
    modifies out
    ensures out.sink == old(out.sink).Write(EncodeEntry(mt, e))
  {
    hide Sink.Write, Forced, EachWritten;
    WriteForced(mt.Fields()[0], e.key, out);
    WriteForced(mt.Fields()[1], e.val, out);
    WriteTwice(old(out.sink), Forced(mt.Fields()[0], e.key), Forced(mt.Fields()[1], e.val));
  }

  // The length of each record is counted by a first pass over its key and value.
  method WriteMap(tag: nat, mt: MapType, es: seq<Entry>, out: Writer)
    requires mt.Valid() && AllFit(mt, es)
    modifies out
    ensures out.sink == old(out.sink).Write(EncodeMap(tag, mt, es))
  {
    hide Sink.Write, EncodeEntry, Entry.Fits, MapType.Valid, Varint, TagBytes;
    ghost var done: seq<Byte> := [];
    WriteTwice(out.sink, [], []);
    assert es[0..] == es;
    for i := 0 to |es|
      invariant AllFit(mt, es[i..])
      invariant out.sink == old(out.sink).Write(done) && done + EncodeMap(tag, mt, es[i..]) == EncodeMap(tag, mt, es)
    {
      assert es[i..][0] == es[i] && es[i..][1..] == es[i + 1..];
      ghost var body := EncodeEntry(mt, es[i]);
      var sizeCollector := new Writer(WriterSizeCollector(0));
      WriteMapKeyValue(mt, es[i], sizeCollector);
      Counted(body);
      out.WriteHead(tag, sizeCollector.sink.byteSize);
      ghost var head := TagBytes(tag, LENGTH_DELIMETED) + Varint(|body|);
      WriteTwice(old(out.sink), done, head);
      WriteMapKeyValue(mt, es[i], out);
      WriteTwice(old(out.sink), done + head, body);
      Assoc(done, head, body);
      Assoc(done, Delimited(tag, body), EncodeMap(tag, mt, es[i + 1..]));
      done := done + Delimited(tag, body);
    }
    assert done + [] == done;
  }

  // ---- reading ----------------------------------------------------------------------------

  // std::map::insert keeps the value of a key that is there already.
  function Insert(m: map<Value, Value>, e: Entry): map<Value, Value> {
    if e.key in m then m else m[e.key := e.val]
  }

  function InsertAll(m: map<Value, Value>, es: seq<Entry>): map<Value, Value>
    decreases |es|
  {
    if es == [] then m else InsertAll(Insert(m, es[0]), es[1..])
  }

  // Spins: the loop in ReadMap has not ended after any number of rounds.
  datatype Outcome = Returns(ok: bool, value: map<Value, Value>, rest: seq<Byte>) | Spins

  lemma {:induction false} VarintTakes(s: seq<Byte>, left: nat, weight: nat, modulus: nat, acc: nat)
    requires modulus > 0 && s != [] && left > 0
    ensures |ReadVarintFrom(s, left, weight, modulus, acc).rest| < |s|
  {
    hide AddDigit;
  }

  lemma MessageTakes(fields: seq<Field>, vs: seq<Value>, s: seq<Byte>)
    requires HasAll(fields, vs) && s != []
    ensures |ReadMessage(fields, vs, s).rest| < |s|
  {
    hide Visit, HasAll, ReadVarintFrom;
    VarintTakes(s, 5, 1, TWO32, 0);
  }

  lemma PairRead(mt: MapType, vs: seq<Value>)
    requires HasAll(mt.Fields(), vs)
    ensures |vs| == 2
  {
    HasLength(mt.Fields(), vs);
  }

  // The loop where its guard is tested: the bytes limitedIn can still reach, those its limit allows, and
  // the map so far.
  datatype MapLoop = MapLoop(s: seq<Byte>, limit: nat, m: map<Value, Value>) {
    predicate Valid() {
      |s| <= limit
    }
  }

  // The body: an entry is read and inserted, and what was read comes off the limit.
  function Round(mt: MapType, st: MapLoop): (next: MapLoop)
    requires st.Valid()
    ensures next.Valid() && next.limit - |next.s| == st.limit - |st.s|
  {
    var r := ReadMessage(mt.Fields(), BlankAll(mt.Fields()), st.s);
    PairRead(mt, r.value);
    MapLoop(r.rest, st.limit - (|st.s| - |r.rest|), Insert(st.m, Entry(r.value[0], r.value[1])))
  }

  // while (limitedIn.AvailableBytes() > 0), left alone after n rounds.
  function Rounds(mt: MapType, st: MapLoop, n: nat): (next: MapLoop)
    requires st.Valid()
    ensures next.Valid() && next.limit - |next.s| == st.limit - |st.s|
    decreases n
  {
    if st.limit > 0 && n > 0 then Rounds(mt, Round(mt, st), n - 1) else st
  }

  // The guard fails after some number of rounds.
  ghost predicate Ends(mt: MapType, st: MapLoop)
    requires st.Valid()
  {
    exists n: nat :: Rounds(mt, st, n).limit == 0
  }

  // The loop as a value; where it ends, as many rounds as there are bytes are enough.
  ghost function ReadEntries(mt: MapType, st: MapLoop): (r: Outcome)
    requires st.Valid()
    ensures r.Returns? ==> |r.rest| <= |st.s|
  {
    if Ends(mt, st) then
      var last := Rounds(mt, st, |st.s|);
      RoundsShrink(mt, st, |st.s|);
      Returns(true, last.m, last.s)
    else Spins
  }

  lemma {:induction false} RoundsShrink(mt: MapType, st: MapLoop, n: nat)
    requires st.Valid()
    ensures |Rounds(mt, st, n).s| <= |st.s|
    decreases n
  {
    hide ReadMessage;
    if st.limit > 0 && n > 0 {
      RoundsShrink(mt, Round(mt, st), n - 1);
    }
  }

  // A round with nothing to read takes nothing off the limit.
  lemma EmptyRound(mt: MapType, st: MapLoop)
    requires st.Valid() && st.s == []
    ensures Round(mt, st).s == [] && Round(mt, st).limit == st.limit
  {
    NothingToRead(mt.Fields(), BlankAll(mt.Fields()));
  }

  // A round with something to read takes at least a byte.
  lemma FullRound(mt: MapType, st: MapLoop)
    requires st.Valid() && st.s != []
    ensures |Round(mt, st).s| < |st.s|
  {
    hide ReadMessage;
    MessageTakes(mt.Fields(), BlankAll(mt.Fields()), st.s);
  }

  // With all the bytes its limit allows the loop has ended after as many rounds, or more.
  lemma {:induction false} EndsInTime(mt: MapType, st: MapLoop, n: nat)
    requires st.Valid() && |st.s| == st.limit <= n
    ensures Rounds(mt, st, n).limit == 0
    ensures Rounds(mt, st, n) == Rounds(mt, st, |st.s|)
    decreases n
  {
    hide Round;
    if st.limit > 0 {
      FullRound(mt, st);
      EndsInTime(mt, Round(mt, st), n - 1);
      EndsInTime(mt, Round(mt, st), |st.s| - 1);
    }
  }

  // With fewer it has not ended after any number of rounds, and once the bytes are gone every round
  // leaves it where it is.
  lemma {:induction false} NeverEnds(mt: MapType, st: MapLoop, n: nat)
    requires st.Valid() && |st.s| < st.limit
    ensures Rounds(mt, st, n).limit > 0
    ensures n >= |st.s| ==> Rounds(mt, st, n).s == [] && Rounds(mt, st, n).limit == st.limit - |st.s|
    decreases n
  {
    hide Round;
    if n > 0 {
      if st.s == [] {
        EmptyRound(mt, st);
      } else {
        FullRound(mt, st);
      }
      NeverEnds(mt, Round(mt, st), n - 1);
    }
  }

  lemma EndsIff(mt: MapType, st: MapLoop)
    requires st.Valid()
    ensures Ends(mt, st) <==> |st.s| == st.limit
  {
    hide Rounds;
    if |st.s| == st.limit {
      EndsInTime(mt, st, |st.s|);
    } else {
      forall n: nat ensures Rounds(mt, st, n).limit > 0 {
        NeverEnds(mt, st, n);
      }
    }
  }

  ghost function ReadMap(mt: MapType, was: map<Value, Value>, wireType: nat, s: seq<Byte>): (r: Outcome)
    ensures r.Returns? ==> |r.rest| <= |s|
  {
    if wireType != LENGTH_DELIMETED then Returns(false, was, s)
    else
      var n := ReadVarint64(s);
      if !n.ok then Returns(false, was, n.rest)
      else
        var sub := Limited(n.rest, n.value);
        var r := ReadEntries(mt, MapLoop(sub, n.value, was));
        if r.Spins? then Spins else Returns(r.ok, r.value, r.rest + n.rest[|sub|..])
  }

  // ReadMap returns exactly if the record is of another wire type, has no length, or has all the bytes
  // its length announces.
  lemma ReturnsIffComplete(mt: MapType, was: map<Value, Value>, wireType: nat, s: seq<Byte>)
    ensures ReadMap(mt, was, wireType, s).Returns? <==>
            wireType != LENGTH_DELIMETED || !ReadVarint64(s).ok || |ReadVarint64(s).rest| >= ReadVarint64(s).value
  {
    hide ReadVarint64, Ends, Rounds;
    var n := ReadVarint64(s);
    if wireType == LENGTH_DELIMETED && n.ok {
      EndsIff(mt, MapLoop(Limited(n.rest, n.value), n.value, was));
    }
  }

  // A record that announces one byte and has none: after any number of rounds the loop is where it was.
  lemma TruncatedRecord(mt: MapType, was: map<Value, Value>, n: nat)
    ensures ReadMap(mt, was, LENGTH_DELIMETED, [1]) == Spins
    ensures Rounds(mt, MapLoop([], 1, was), n).s == [] && Rounds(mt, MapLoop([], 1, was), n).limit == 1
  {
    hide Rounds, Ends;
    NeverEnds(mt, MapLoop([], 1, was), n);
    ReadOneByte(1, [], 10, 1, TWO64, 0);
    assert [1] + [] == [1];
    ReturnsIffComplete(mt, was, LENGTH_DELIMETED, [1]);
  }

  // ---- the round trip ------------------------------------------------------------------------

  // A forced field sets its member, whatever it held if it is a number or a string.
  lemma ForcedReads(mt: MapType, vs: seq<Value>, i: nat, v: Value, tail: seq<Byte>)
    requires mt.Valid() && i < 2 && |vs| == 2 && HasAll(mt.Fields(), vs) && Has(mt.Fields()[i], vs[i])
    requires Has(mt.Fields()[i], v) && EachWritten(mt.Fields()[i], v) && vs[i] == Blank(mt.Fields()[i])
    requires |Forced(mt.Fields()[i], v)| < TWO64
    ensures HasAll(mt.Fields(), vs[i := v])
    ensures ReadMessage(mt.Fields(), vs, Forced(mt.Fields()[i], v) + tail) == ReadMessage(mt.Fields(), vs[i := v], tail)
  {
    hide ReadMessage, Varint, TagBytes, HasAll, ParseOne, ParseText, ParseSub, Encode, EncodeScalar, MergeAll, AllWritten, BlankAll;
    var fields, f := mt.Fields(), mt.Fields()[i];
    assert TagsOk(fields);
    match f.ty
    case One(sc) =>
      OneReads(sc, vs[i].n, v.n, tail);
      RecordRead(fields, vs, i, WireTypeOf(sc), EncodeScalar(sc, v.n), tail, v);
    case Str =>
      TextReads(vs[i].s, v.s, tail);
      DelimitedRecord(fields, vs, i, v.s, tail, v);
    case Sub(schema) =>
      SubReads(schema, vs[i].vs, v.vs, tail);
      FreshMergeAll(schema.fields, v.vs);
      DelimitedRecord(fields, vs, i, Encode(schema.fields, v.vs), tail, v);
  }

  lemma BlankPair(mt: MapType)
    ensures BlankAll(mt.Fields()) == [Blank(mt.Fields()[0]), Blank(mt.Fields()[1])]
  {
  }

  lemma EntryReads(mt: MapType, e: Entry)
    requires mt.Valid() && e.Fits(mt) && |EncodeEntry(mt, e)| < TWO64
    ensures ReadMessage(mt.Fields(), BlankAll(mt.Fields()), EncodeEntry(mt, e)) == Got(true, e.Members(), [])
  {
    hide ReadMessage, HasAll, Forced, Blank, BlankAll, EachWritten, Has, MapType.Fields;
    var fields, vs := mt.Fields(), BlankAll(mt.Fields());
    BlankPair(mt);
    FieldsAre(mt);
    ForcedReads(mt, vs, 0, e.key, Forced(fields[1], e.val));
    var us := vs[0 := e.key];
    ForcedReads(mt, us, 1, e.val, []);
    assert us[1 := e.val] == e.Members();
    assert Forced(fields[1], e.val) + [] == Forced(fields[1], e.val);
    NothingToRead(fields, e.Members());
  }

  lemma FieldsAre(mt: MapType)
    ensures mt.Fields() == [Field(1, mt.key), Field(2, mt.val)]
    ensures mt.Valid() ==> forall v | Has(mt.Fields()[0], v) :: EachWritten(mt.Fields()[0], v)
  {
  }

  // The bytes of one entry make one round.
  lemma OneEntry(mt: MapType, e: Entry, was: map<Value, Value>)
    requires mt.Valid() && e.Fits(mt) && |EncodeEntry(mt, e)| < TWO64
    ensures var body := EncodeEntry(mt, e);
            ReadEntries(mt, MapLoop(body, |body|, was)) == Returns(true, Insert(was, e), [])
  {
    hide ReadMessage, EncodeEntry, Ends;
    var body := EncodeEntry(mt, e);
    var st := MapLoop(body, |body|, was);
    EntryReads(mt, e);
    EndsIff(mt, st);
    assert Round(mt, st) == MapLoop([], 0, Insert(was, e));
    assert Rounds(mt, st, |body|) == Rounds(mt, Round(mt, st), |body| - 1) == Round(mt, st);
  }

  lemma RecordReads(mt: MapType, was: map<Value, Value>, e: Entry, tail: seq<Byte>)
    requires mt.Valid() && e.Fits(mt) && |EncodeEntry(mt, e)| < TWO64
    ensures var body := EncodeEntry(mt, e);
            ReadMap(mt, was, LENGTH_DELIMETED, Varint(|body|) + body + tail) == Returns(true, Insert(was, e), tail)
  {
    hide ReadVarint64, Varint, ReadMessage, EncodeEntry, Ends, Rounds;
    var body := EncodeEntry(mt, e);
    LengthRead(body, tail);
    OneEntry(mt, e, was);
    assert [] + tail == tail;
  }

  // A message whose one member is a map: its records, one after the other.
  ghost function ReadRecords(tag: nat, mt: MapType, was: map<Value, Value>, s: seq<Byte>): Outcome
    decreases |s|
  {
    var key := ReadVarint32(s);
    if !key.ok then Returns(true, was, key.rest)
    else if key.value / 8 != tag then ReadRecords(tag, mt, was, key.rest)
    else
      var r := ReadMap(mt, was, key.value % 8, key.rest);
      if r.Spins? then Spins else ReadRecords(tag, mt, r.value, r.rest)
  }

  lemma RecordsStep(tag: nat, mt: MapType, was: map<Value, Value>, s: seq<Byte>, rest: seq<Byte>)
    requires ReadVarint32(s) == ReadNum(true, 8 * tag + LENGTH_DELIMETED, rest)
    ensures var r := ReadMap(mt, was, LENGTH_DELIMETED, rest);
            r.Returns? ==> ReadRecords(tag, mt, was, s) == ReadRecords(tag, mt, r.value, r.rest)
  {
    hide ReadMap, ReadVarint32;
    assert (8 * tag + LENGTH_DELIMETED) / 8 == tag && (8 * tag + LENGTH_DELIMETED) % 8 == LENGTH_DELIMETED;
  }

  // Reading what was written inserts the entries, in order, into what the map held: a key it had keeps
  // its value.
  lemma {:induction false} MapReads(tag: nat, mt: MapType, was: map<Value, Value>, es: seq<Entry>)
    requires mt.Valid() && AllFit(mt, es) && 1 <= tag < 0x2000_0000
    ensures ReadRecords(tag, mt, was, EncodeMap(tag, mt, es)) == Returns(true, InsertAll(was, es), [])
    decreases |es|
  {
    hide ReadMap, ReadVarint32, Varint, TagBytes, EncodeEntry, ReadRecords, Entry.Fits;
    if es == [] {
      NoRecords(tag, mt, was);
    } else {
      var body, more := EncodeEntry(mt, es[0]), EncodeMap(tag, mt, es[1..]);
      var tagged, rest := TagBytes(tag, LENGTH_DELIMETED), Varint(|body|) + body + more;
      assert tagged + Varint(|body|) + body + more == tagged + rest;
      TagRead(tag, LENGTH_DELIMETED, rest);
      RecordReads(mt, was, es[0], more);
      RecordsStep(tag, mt, was, tagged + rest, rest);
      MapReads(tag, mt, Insert(was, es[0]), es[1..]);
    }
  }

  lemma NoRecords(tag: nat, mt: MapType, was: map<Value, Value>)
    ensures ReadRecords(tag, mt, was, []) == Returns(true, was, [])
  {
  }

  function Keys(es: seq<Entry>): set<Value> {
    if es == [] then {} else {es[0].key} + Keys(es[1..])
  }

  // Keys that are distinct all come with their own values, and nothing else changes.
  lemma {:induction false} FreshEntries(was: map<Value, Value>, es: seq<Entry>)
    requires forall i, j | 0 <= i < j < |es| :: es[i].key != es[j].key
    requires forall i | 0 <= i < |es| :: es[i].key !in was
    ensures var m := InsertAll(was, es);
            && m.Keys == was.Keys + Keys(es)
            && (forall i | 0 <= i < |es| :: es[i].key in m && m[es[i].key] == es[i].val)
            && (forall k | k in was :: k in m && m[k] == was[k])
    decreases |es|
  {
    if es != [] {
      var now := Insert(was, es[0]);
      forall i | 0 <= i < |es[1..]| ensures es[1..][i].key !in now {
        assert es[1..][i] == es[i + 1];
      }
      FreshEntries(now, es[1..]);
      forall i | 0 <= i < |es| ensures es[i].key in InsertAll(was, es) && InsertAll(was, es)[es[i].key] == es[i].val {
        if i > 0 {
          assert es[i] == es[1..][i - 1];
        } else {
          assert es[0].key in now;
        }
      }
    }
  }

  // A key the map has keeps its value, a new one gets that of its first entry, and no other appears.
  lemma {:induction false} InsertedMeans(was: map<Value, Value>, es: seq<Entry>, key: Value)
    ensures var m := InsertAll(was, es);
            && (key in was ==> key in m && m[key] == was[key])
            && (key in m <==> key in was || exists i :: 0 <= i < |es| && es[i].key == key)
            && (key !in was ==>
                 forall i | 0 <= i < |es| && es[i].key == key && (forall j | 0 <= j < i :: es[j].key != key) ::
                   key in m && m[key] == es[i].val)
    decreases |es|
  {
    if es != [] {
      InsertedMeans(Insert(was, es[0]), es[1..], key);
      assert forall i | 0 < i < |es| :: es[1..][i - 1] == es[i];
      if key !in was {
        forall i | 0 <= i < |es| && es[i].key == key && (forall j | 0 <= j < i :: es[j].key != key)
          ensures key in InsertAll(was, es) && InsertAll(was, es)[key] == es[i].val
        {
          if i > 0 {
            assert es[1..][i - 1].key == key && forall j | 0 <= j < i - 1 :: es[1..][j].key != key;
          }
        }
      }
    }
  }
}

/** The writer of src/common/serial_struct_define.h: two passes over the same code, the first for sizes. */
module SerialWriter {
  import opened Bytes
  import opened SerialWire
  import opened SerialSchema

  // The two kinds of Writer: one appends the bytes, the other only counts them.
  datatype Sink = StringWriter(out: seq<Byte>) | WriterSizeCollector(byteSize: nat) {
    function Write(bytes: seq<Byte>): Sink {
      match this
      case StringWriter(out) => StringWriter(out + bytes)
      case WriterSizeCollector(n) => WriterSizeCollector(n + |bytes|)
    }
  }

  lemma WriteTwice(to: Sink, a: seq<Byte>, b: seq<Byte>)
    ensures to.Write(a).Write(b) == to.Write(a + b)
    ensures to.Write([]) == to
    ensures to.StringWriter? == to.Write(a).StringWriter?
  {
    if to.StringWriter? {
      Assoc(to.out, a, b);
      assert to.out + [] == to.out;
    }
  }

  lemma Counted(bytes: seq<Byte>)
    ensures WriterSizeCollector(0).Write(bytes) == WriterSizeCollector(|bytes|)
    ensures StringWriter([]).Write(bytes) == StringWriter(bytes)
  {
    assert [] + bytes == bytes;
  }

  lemma EncodeParts(fields: seq<Field>, vs: seq<Value>, i: nat)
    requires HasAll(fields, vs) && |vs| == |fields| && i < |fields|
    requires HasAll(fields[i..], vs[i..])
    ensures Has(fields[i], vs[i]) && HasAll(fields[i + 1..], vs[i + 1..])
    ensures Encode(fields[i..], vs[i..]) == EncodeField(fields[i], vs[i]) + Encode(fields[i + 1..], vs[i + 1..])
  {
    hide EncodeField, Has;
    assert fields[i..][1..] == fields[i + 1..] && vs[i..][1..] == vs[i + 1..];
  }

  class Writer {
    var sink: Sink

    constructor (sink: Sink)
      ensures this.sink == sink
    {
      this.sink := sink;
    }

    method Write(bytes: seq<Byte>)
      modifies this
      ensures sink == old(sink).Write(bytes)
    {
      match sink
      case StringWriter(out) => sink := StringWriter(out + bytes);
      case WriterSizeCollector(n) => sink := WriterSizeCollector(n + |bytes|);
    }

    method WriteTagWriteType(tag: nat, wireType: nat)
      modifies this
      ensures sink == old(sink).Write(TagBytes(tag, wireType))
    {
      var key := WriteVarint32(MakeTagWireType(tag, wireType));
      Write(key);
    }

    // Tag and length of a body of `size` bytes, which is written next.
    method WriteHead(tag: nat, size: U64)
      modifies this
      ensures sink == old(sink).Write(TagBytes(tag, LENGTH_DELIMETED) + Varint(size))
    {
      hide Sink.Write, Varint;
      WriteTagWriteType(tag, LENGTH_DELIMETED);
      var n := WriteVarint64(size);
      Write(n);
      WriteTwice(old(sink), TagBytes(tag, LENGTH_DELIMETED), n);
    }

    method WriteNumber(sc: Scalar, v: int)
      requires sc.InRange(v)
      modifies this
      ensures sink == old(sink).Write(EncodeScalar(sc, v))
    {
      var n := ToWire(sc, v);
      var bytes;
      if sc.Fixed() {
        bytes := if sc.Wide() then Le64(n) else Le32(n);
      } else if sc.Wide() {
        bytes := WriteVarint64(n);
      } else {
        bytes := WriteVarint32(n);
      }
      Write(bytes);
    }

    method WriteText(tag: nat, s: seq<Byte>)
      requires |s| < TWO64
      modifies this
      ensures sink == old(sink).Write(Delimited(tag, s))
    {
      hide Sink.Write, Varint;
      WriteHead(tag, |s|);
      Write(s);
      WriteTwice(old(sink), TagBytes(tag, LENGTH_DELIMETED) + Varint(|s|), s);
    }

    method WriteTexts(tag: nat, ss: seq<seq<Byte>>)
      requires forall i | 0 <= i < |ss| :: |ss[i]| < TWO64
      modifies this
      ensures sink == old(sink).Write(EncodeTexts(tag, ss))
    {
      hide Sink.Write, Delimited;
      ghost var done: seq<Byte> := [];
      WriteTwice(sink, [], []);
      for i := 0 to |ss|
        invariant sink == old(sink).Write(done) && done + EncodeTexts(tag, ss[i..]) == EncodeTexts(tag, ss)
      {
        assert ss[i..][1..] == ss[i + 1..];
        WriteText(tag, ss[i]);
        WriteTwice(old(sink), done, Delimited(tag, ss[i]));
        Assoc(done, Delimited(tag, ss[i]), EncodeTexts(tag, ss[i + 1..]));
        done := done + Delimited(tag, ss[i]);
      }
      assert done + [] == done;
    }

    method WritePacked(sc: Scalar, ns: seq<int>)
      requires forall i | 0 <= i < |ns| :: sc.InRange(ns[i])
      modifies this
      ensures sink == old(sink).Write(EncodeNums(sc, ns))
    {
      hide Sink.Write, EncodeScalar;
      ghost var done: seq<Byte> := [];
      WriteTwice(sink, [], []);
      for i := 0 to |ns|
        invariant sink == old(sink).Write(done) && done + EncodeNums(sc, ns[i..]) == EncodeNums(sc, ns)
      {
        assert ns[i..][1..] == ns[i + 1..];
        WriteNumber(sc, ns[i]);
        WriteTwice(old(sink), done, EncodeScalar(sc, ns[i]));
        Assoc(done, EncodeScalar(sc, ns[i]), EncodeNums(sc, ns[i + 1..]));
        done := done + EncodeScalar(sc, ns[i]);
      }
      assert done + [] == done;
    }

    // WriteRepeated for numbers: the length comes from a collector that sees the same elements first.
    method WriteRepeated(tag: nat, sc: Scalar, ns: seq<int>)
      requires forall i | 0 <= i < |ns| :: sc.InRange(ns[i])
      requires |EncodeNums(sc, ns)| < TWO64
      modifies this
      ensures sink == old(sink).Write(EncodeSub(tag, EncodeNums(sc, ns)))
    {
      hide Sink.Write, EncodeScalar, Varint, TagBytes;
      if ns == [] {
        WriteTwice(sink, [], []);
        return;
      }
      var sizeCollector := new Writer(WriterSizeCollector(0));
      sizeCollector.WritePacked(sc, ns);
      Counted(EncodeNums(sc, ns));
      WriteHead(tag, sizeCollector.sink.byteSize);
      ghost var head := TagBytes(tag, LENGTH_DELIMETED) + Varint(|EncodeNums(sc, ns)|);
      assert sink == old(sink).Write(head);
      WritePacked(sc, ns);
      WriteTwice(old(sink), head, EncodeNums(sc, ns));
    }

    // Serializer<T>::Serialize for a nested message.
    method WriteSub(tag: nat, schema: Schema, vs: seq<Value>)
      requires HasAll(schema.fields, vs) && |Encode(schema.fields, vs)| < TWO64
      modifies this
      ensures sink == old(sink).Write(EncodeSub(tag, Encode(schema.fields, vs)))
      decreases schema, 0, 0
    {
      hide Sink.Write, Encode, HasAll, Varint, TagBytes;
      var sizeCollector := new Writer(WriterSizeCollector(0));
      sizeCollector.WriteMessage(schema.fields, vs);
      ghost var body := Encode(schema.fields, vs);
      Counted(body);
      if sizeCollector.sink.byteSize == 0 {
        WriteTwice(sink, [], []);
        return;
      }
      WriteHead(tag, sizeCollector.sink.byteSize);
      ghost var head := TagBytes(tag, LENGTH_DELIMETED) + Varint(|body|);
      assert sink == old(sink).Write(head);
      WriteMessage(schema.fields, vs);
      WriteTwice(old(sink), head, body);
    }

    method WriteSubs(tag: nat, schema: Schema, ms: seq<Value>)
      requires HasEach(schema, ms) && |EncodeSubs(tag, schema, ms)| < TWO64
      modifies this
      ensures sink == old(sink).Write(EncodeSubs(tag, schema, ms))
      decreases schema, 1, 0
    {
      hide Sink.Write, Encode, HasAll, EncodeSub;
      ghost var done: seq<Byte> := [];
      WriteTwice(sink, [], []);
      for i := 0 to |ms|
        invariant HasEach(schema, ms[i..])
        invariant sink == old(sink).Write(done) && done + EncodeSubs(tag, schema, ms[i..]) == EncodeSubs(tag, schema, ms)
      {
        assert ms[i..][1..] == ms[i + 1..];
        ghost var bytes := EncodeSub(tag, Encode(schema.fields, ms[i].vs));
        BodyIsShorter(tag, Encode(schema.fields, ms[i].vs));
        WriteSub(tag, schema, ms[i].vs);
        WriteTwice(old(sink), done, bytes);
        Assoc(done, bytes, EncodeSubs(tag, schema, ms[i + 1..]));
        done := done + bytes;
      }
      assert done + [] == done;
    }

    method WriteField(f: Field, v: Value)
      requires Has(f, v) && |EncodeField(f, v)| < TWO64
      modifies this
      ensures sink == old(sink).Write(EncodeField(f, v))
      decreases f, 0, 0
    {
      hide Sink.Write, Encode, HasAll, HasEach, EncodeScalar, Varint, EncodeNums, EncodeTexts, EncodeSubs;
      match f.ty {
        case One(sc) =>
          WriteTwice(sink, [], []);
          if !(sc.F64T? && v.n == 0) {
            WriteTagWriteType(f.tag, WireTypeOf(sc));
            WriteNumber(sc, v.n);
            WriteTwice(old(sink), TagBytes(f.tag, WireTypeOf(sc)), EncodeScalar(sc, v.n));
          }
        case Str => WriteText(f.tag, v.s);
        case Packed(sc) =>
          BodyIsShorter(f.tag, EncodeNums(sc, v.ns));
          WriteRepeated(f.tag, sc, v.ns);
        case Strs => WriteTexts(f.tag, v.ss);
        case Sub(schema) =>
          BodyIsShorter(f.tag, Encode(schema.fields, v.vs));
          WriteSub(f.tag, schema, v.vs);
        case Subs(schema) => WriteSubs(f.tag, schema, v.ms);
      }
    }

    // Visit with WriteField for every field, in order of declaration.
    method WriteMessage(fields: seq<Field>, vs: seq<Value>)
      requires HasAll(fields, vs) && |Encode(fields, vs)| < TWO64
      modifies this
      ensures sink == old(sink).Write(Encode(fields, vs))
      decreases fields, 0, 0
    {
      hide Sink.Write, EncodeField, Has;
      ghost var done: seq<Byte> := [];
      WriteTwice(sink, [], []);
      for i := 0 to |fields|
        invariant HasAll(fields[i..], vs[i..])
        invariant sink == old(sink).Write(done) && done + Encode(fields[i..], vs[i..]) == Encode(fields, vs)
      {
        EncodeParts(fields, vs, i);
        ghost var bytes := EncodeField(fields[i], vs[i]);
        WriteField(fields[i], vs[i]);
        WriteTwice(old(sink), done, bytes);
        Assoc(done, bytes, Encode(fields[i + 1..], vs[i + 1..]));
        done := done + bytes;
      }
      assert done + [] == done;
    }
  }

  lemma BodyIsShorter(tag: nat, body: seq<Byte>)
    ensures |body| <= |EncodeSub(tag, body)|
  {
    hide Varint;
  }

  // The bytes of the second pass, every length in them counted by a first.
  method SerializeToString(fields: seq<Field>, vs: seq<Value>) returns (s: seq<Byte>)
    requires HasAll(fields, vs) && |Encode(fields, vs)| < TWO64
    ensures s == Encode(fields, vs)
  {
    hide Sink.Write, Encode, HasAll;
    var stringOut := new Writer(StringWriter([]));
    stringOut.WriteMessage(fields, vs);
    Counted(Encode(fields, vs));
    s := stringOut.sink.out;
  }
}

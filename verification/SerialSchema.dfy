/** Message schemas of src/common/serial_struct_define.h and the bytes a message is written as. */
module SerialSchema {
  import opened Bytes
  import opened SerialWire

  // ---- schemas and values ----------------------------------------------------------

  // One: a number. Str: std::string. Packed: std::vector of numbers. Strs: std::vector<std::string>.
  // Sub: a nested message. Subs: std::vector of messages.
  datatype FieldType =
    | One(scalar: Scalar)
    | Str
    | Packed(scalar: Scalar)
    | Strs
    | Sub(schema: Schema)
    | Subs(schema: Schema)

  datatype Field = Field(tag: nat, ty: FieldType)

  datatype Schema = Schema(fields: seq<Field>)

  datatype Value =
    | Num(n: int)
    | Text(s: seq<Byte>)
    | Nums(ns: seq<int>)
    | Texts(ss: seq<seq<Byte>>)
    | Msg(vs: seq<Value>)
    | Msgs(ms: seq<Value>)

  // v is a value of the member's C++ type.
  predicate Has(f: Field, v: Value)
    decreases f, 0, 0
  {
    match f.ty
    case One(sc) => v.Num? && sc.InRange(v.n)
    case Str => v.Text? && |v.s| < TWO31
    case Packed(sc) => v.Nums? && forall i | 0 <= i < |v.ns| :: sc.InRange(v.ns[i])
    case Strs => v.Texts? && forall i | 0 <= i < |v.ss| :: |v.ss[i]| < TWO31
    case Sub(schema) => v.Msg? && HasAll(schema.fields, v.vs)
    case Subs(schema) => v.Msgs? && HasEach(schema, v.ms)
  }

  predicate HasAll(fields: seq<Field>, vs: seq<Value>)
    decreases fields, 0, 0
  {
    |vs| == |fields| && (fields == [] || (Has(fields[0], vs[0]) && HasAll(fields[1..], vs[1..])))
  }

  predicate HasEach(schema: Schema, ms: seq<Value>)
    decreases schema, 1, |ms|
  {
    ms == [] || (ms[0].Msg? && HasAll(schema.fields, ms[0].vs) && HasEach(schema, ms[1..]))
  }

  // Tags as MakeTagWireType can pack them, no two alike, at every level.
  predicate TagsOk(fields: seq<Field>)
    decreases fields, 0
  {
    && (forall i | 0 <= i < |fields| :: 1 <= fields[i].tag < 0x2000_0000)
    && (forall i, j | 0 <= i < j < |fields| :: fields[i].tag != fields[j].tag)
    && (forall i | 0 <= i < |fields| :: FieldTagsOk(fields[i]))
  }

  predicate FieldTagsOk(f: Field)
    decreases f, 0
  {
    match f.ty
    case Sub(schema) => TagsOk(schema.fields)
    case Subs(schema) => TagsOk(schema.fields)
    case _ => true
  }

  // ---- tags ---------------------------------------------------------------------------

  const VARINT: nat := 0
  const FIXED64: nat := 1
  const LENGTH_DELIMETED: nat := 2
  const FIXED32: nat := 5

  function WireTypeOf(sc: Scalar): nat {
    if !sc.Fixed() then VARINT else if sc.Wide() then FIXED64 else FIXED32
  }

  function MakeTagWireType(tag: nat, wireType: nat): nat {
    (8 * tag + wireType) % TWO32
  }

  function TagBytes(tag: nat, wireType: nat): seq<Byte> {
    Varint(MakeTagWireType(tag, wireType))
  }

  // ---- the encoding of a value, as bytes --------------------------------------------------

  function EncodeNums(sc: Scalar, ns: seq<int>): seq<Byte>
    requires forall i | 0 <= i < |ns| :: sc.InRange(ns[i])
  {
    if ns == [] then [] else EncodeScalar(sc, ns[0]) + EncodeNums(sc, ns[1..])
  }

  // Tag, length, body.
  function Delimited(tag: nat, body: seq<Byte>): seq<Byte> {
    TagBytes(tag, LENGTH_DELIMETED) + Varint(|body|) + body
  }

  function EncodeTexts(tag: nat, ss: seq<seq<Byte>>): seq<Byte> {
    if ss == [] then [] else Delimited(tag, ss[0]) + EncodeTexts(tag, ss[1..])
  }

  function EncodeSub(tag: nat, body: seq<Byte>): seq<Byte> {
    if body == [] then [] else Delimited(tag, body)
  }

  function EncodeSubs(tag: nat, schema: Schema, ms: seq<Value>): seq<Byte>
    requires HasEach(schema, ms)
    decreases schema, 1, |ms|
  {
    if ms == [] then []
    else EncodeSub(tag, Encode(schema.fields, ms[0].vs)) + EncodeSubs(tag, schema, ms[1..])
  }

  function EncodeField(f: Field, v: Value): seq<Byte>
    requires Has(f, v)
    decreases f, 0, 0
  {
    match f.ty
    case One(sc) =>
      if sc.F64T? && v.n == 0 then [] else TagBytes(f.tag, WireTypeOf(sc)) + EncodeScalar(sc, v.n)
    case Str => Delimited(f.tag, v.s)
    case Packed(sc) => EncodeSub(f.tag, EncodeNums(sc, v.ns))
    case Strs => EncodeTexts(f.tag, v.ss)
    case Sub(schema) => EncodeSub(f.tag, Encode(schema.fields, v.vs))
    case Subs(schema) => EncodeSubs(f.tag, schema, v.ms)
  }

  function Encode(fields: seq<Field>, vs: seq<Value>): seq<Byte>
    requires HasAll(fields, vs)
    decreases fields, 0, 0
  {
    if fields == [] then [] else EncodeField(fields[0], vs[0]) + Encode(fields[1..], vs[1..])
  }
}

/** The four messages of src/common/serial_struct.h. */
module SerialStructs {
  import opened Bytes
  import opened SerialWire
  import opened SerialSchema
  import opened SerialRead
  import opened SerialRoundTrip
  import opened SerialFresh

  // A std::string that one copy can move.
  type StdString = s: seq<Byte> | |s| < TWO31

  // ---- schemas from lists of member types ----------------------------------------------------

  // Fields tagged 1, 2, ... in the order of declaration.
  function Numbered(types: seq<FieldType>): (fields: seq<Field>)
    ensures |fields| == |types|
    ensures forall i | 0 <= i < |types| :: fields[i] == Field(i + 1, types[i])
  {
    seq(|types|, i requires 0 <= i < |types| => Field(i + 1, types[i]))
  }

  // Members that are numbers or strings, never fixed64.
  predicate Flat(types: seq<FieldType>) {
    |types| < 100 && forall i | 0 <= i < |types| :: types[i] == Str || (types[i].One? && !types[i].scalar.Fixed())
  }

  lemma FlatIsSolid(types: seq<FieldType>)
    requires Flat(types)
    ensures TagsOk(Numbered(types)) && Solid(Numbered(types))
  {
  }

  lemma {:induction false} HasPointwise(fields: seq<Field>, vs: seq<Value>)
    requires |vs| == |fields| && forall i | 0 <= i < |fields| :: Has(fields[i], vs[i])
    ensures HasAll(fields, vs)
    decreases |fields|
  {
    if fields != [] {
      HasPointwise(fields[1..], vs[1..]);
    }
  }

  lemma {:induction false} LengthPointwise(fields: seq<Field>, vs: seq<Value>, most: nat)
    requires HasAll(fields, vs)
    requires forall i | 0 <= i < |fields| :: Has(fields[i], vs[i]) && |EncodeField(fields[i], vs[i])| <= most
    ensures |Encode(fields, vs)| <= Times(|fields|, most)
    decreases |fields|
  {
    hide EncodeField, Has, Times;
    TimesStep(|fields|, most);
    if fields != [] {
      forall i | 0 <= i < |fields[1..]| ensures |EncodeField(fields[1..][i], vs[1..][i])| <= most {
        assert fields[1..][i] == fields[i + 1];
      }
      LengthPointwise(fields[1..], vs[1..], most);
    }
  }

  lemma TimesStep(n: nat, most: nat)
    ensures n > 0 ==> Times(n, most) == most + Times(n - 1, most)
    ensures Times(0, most) == 0
  {
    if n > 0 {
      assert n * most == (n - 1) * most + most;
    }
  }

  // A number takes one byte of tag and at most five, or ten, of value; a string its length more.
  lemma NumberLength(f: Field, v: Value)
    requires Has(f, v) && 1 <= f.tag <= 15 && f.ty.One? && !f.ty.scalar.Fixed()
    ensures |EncodeField(f, v)| <= if f.ty.scalar.Wide() then 11 else 6
  {
    hide Varint;
    TagLength(f.tag, VARINT);
    VarintFits(ToWire(f.ty.scalar, v.n));
  }

  lemma TagLength(tag: nat, wireType: nat)
    requires 1 <= tag <= 15 && wireType < 8
    ensures |TagBytes(tag, wireType)| == 1
  {
  }

  lemma TextLength(f: Field, v: Value)
    requires Has(f, v) && 1 <= f.tag <= 15 && f.ty.Str?
    ensures |EncodeField(f, v)| <= 11 + |v.s|
  {
    hide Varint, TagBytes;
    TagLength(f.tag, LENGTH_DELIMETED);
    VarintFits(|v.s|);
  }

  lemma FlatLength(types: seq<FieldType>, vs: seq<Value>)
    requires Flat(types) && |types| <= 15 && |vs| == |types|
    requires forall i | 0 <= i < |types| :: Has(Numbered(types)[i], vs[i])
    requires forall i | 0 <= i < |types| :: types[i] == Str ==> vs[i].Text? && |vs[i].s| < 0x1_0000_0000
    ensures HasAll(Numbered(types), vs)
    ensures |Encode(Numbered(types), vs)| < TWO64
  {
    hide EncodeField;
    var fields := Numbered(types);
    HasPointwise(fields, vs);
    forall i | 0 <= i < |fields| ensures |EncodeField(fields[i], vs[i])| <= 0x1_0000_1000 {
      if types[i] == Str {
        TextLength(fields[i], vs[i]);
      } else {
        NumberLength(fields[i], vs[i]);
      }
    }
    LengthPointwise(fields, vs, 0x1_0000_1000);
  }

  // What the four messages share: the members come back over any target, with any zero padding
  // behind, and of two encodings in a row the second counts.
  predicate ComesBack(fields: seq<Field>, was: seq<Value>, put: seq<Value>, next: seq<Value>, n: nat)
    requires HasAll(fields, was) && HasAll(fields, put) && HasAll(fields, next)
  {
    && ParseFromString(fields, was, Encode(fields, put)) == put
    && ParseFromString(fields, was, Encode(fields, put) + Zeros(n)) == put
    && ParseFromString(fields, was, Encode(fields, put) + Encode(fields, next)) == next
  }

  lemma FlatComesBack(types: seq<FieldType>, was: seq<Value>, put: seq<Value>, next: seq<Value>, n: nat)
    requires Flat(types)
    requires HasAll(Numbered(types), was) && HasAll(Numbered(types), put) && HasAll(Numbered(types), next)
    requires |Encode(Numbered(types), put)| < TWO64 && |Encode(Numbered(types), next)| < TWO64
    ensures ComesBack(Numbered(types), was, put, next, n)
  {
    hide ParseFromString, Encode, HasAll, Numbered, Flat;
    FlatIsSolid(types);
    SolidRoundTrip(Numbered(types), was, put, n);
    SecondOfTwo(Numbered(types), was, put, next);
  }

  // ---- the bytes, record by record -----------------------------------------------------------------

  // A number and a string under a tag of at most 15, as they stand on the wire.
  function NumberRecord(tag: nat, n: nat): seq<Byte>
    requires 1 <= tag <= 15
  {
    [8 * tag] + Varint(n)
  }

  function TextRecord(tag: nat, s: seq<Byte>): seq<Byte>
    requires 1 <= tag <= 15
  {
    [8 * tag + 2] + Varint(|s|) + s
  }

  function FieldRecords(fields: seq<Field>, vs: seq<Value>): (rs: seq<seq<Byte>>)
    requires HasAll(fields, vs) && |vs| == |fields|
    requires forall i | 0 <= i < |fields| :: Has(fields[i], vs[i])
    ensures |rs| == |fields| && forall i | 0 <= i < |fields| :: rs[i] == EncodeField(fields[i], vs[i])
  {
    seq(|fields|, i requires 0 <= i < |fields| => EncodeField(fields[i], vs[i]))
  }

  lemma {:induction false} EncodeIsFlat(fields: seq<Field>, vs: seq<Value>)
    requires HasAll(fields, vs)
    ensures |vs| == |fields| && forall i | 0 <= i < |fields| :: Has(fields[i], vs[i])
    ensures Encode(fields, vs) == Flatten(FieldRecords(fields, vs))
    decreases |fields|
  {
    hide EncodeField, Has;
    if fields != [] {
      EncodeIsFlat(fields[1..], vs[1..]);
      forall i | 0 <= i < |fields| ensures Has(fields[i], vs[i]) {
        if i > 0 {
          assert fields[1..][i - 1] == fields[i] && vs[1..][i - 1] == vs[i];
        }
      }
      var rs := FieldRecords(fields, vs);
      assert rs[1..] == FieldRecords(fields[1..], vs[1..]);
    }
  }

  lemma SmallTag(tag: nat, wireType: nat)
    requires 1 <= tag <= 15 && wireType < 8
    ensures TagBytes(tag, wireType) == [8 * tag + wireType]
  {
  }

  predicate IsRecord(ty: FieldType, tag: nat, v: Value, r: seq<Byte>)
    requires 1 <= tag <= 15
  {
    match ty
    case One(_) => v.Num? && v.n >= 0 && r == NumberRecord(tag, v.n)
    case Str => v.Text? && r == TextRecord(tag, v.s)
    case _ => false
  }

  // Unsigned numbers and strings are written as such records.
  lemma NumberIs(sc: Scalar, tag: nat, n: int)
    requires 1 <= tag <= 15 && sc in {U64T, U32T, U8T, BoolT} && sc.InRange(n)
    ensures n >= 0 && EncodeField(Field(tag, One(sc)), Num(n)) == NumberRecord(tag, n)
  {
    hide Varint, TagBytes;
    SmallTag(tag, 0);
    SmallModulo(n, sc.Modulus());
  }

  lemma RecordIs(ty: FieldType, tag: nat, v: Value)
    requires 1 <= tag <= 15 && Has(Field(tag, ty), v)
    requires ty == Str || ty in {One(U64T), One(U32T), One(U8T), One(BoolT)}
    ensures IsRecord(ty, tag, v, EncodeField(Field(tag, ty), v))
  {
    hide Varint, TagBytes;
    if ty == Str {
      SmallTag(tag, 2);
    } else {
      NumberIs(ty.scalar, tag, v.n);
    }
  }

  // The encoding of such members is their records, in order.
  lemma EncodeRecords(types: seq<FieldType>, vs: seq<Value>, rs: seq<seq<Byte>>)
    requires |types| == |rs| <= 15 && |vs| == |types| && HasAll(Numbered(types), vs)
    requires forall i | 0 <= i < |types| :: types[i] == Str || types[i] in {One(U64T), One(U32T), One(U8T), One(BoolT)}
    requires forall i | 0 <= i < |types| :: IsRecord(types[i], i + 1, vs[i], rs[i])
    ensures Encode(Numbered(types), vs) == Flatten(rs)
  {
    hide Encode, HasAll, EncodeField, NumberRecord, TextRecord;
    var fields := Numbered(types);
    EncodeIsFlat(fields, vs);
    forall i | 0 <= i < |types| ensures EncodeField(fields[i], vs[i]) == rs[i] {
      RecordIs(types[i], i + 1, vs[i]);
    }
    assert FieldRecords(fields, vs) == rs;
  }

  // ---- TransferConfig ----------------------------------------------------------------------------

  datatype TransferConfig = TransferConfig(
    fileSize: U64, atime: U64, mtime: U64, options: StdString, path: StdString, optionalName: StdString, updateIfNew: bool,
    compressType: Byte, holdTimestamp: bool, functionName: StdString, clientCwd: StdString, reserve1: StdString, reserve2: StdString)
  {
    function Members(): seq<Value> {
      [Num(fileSize), Num(atime), Num(mtime), Text(options), Text(path), Text(optionalName), Num(Bit(updateIfNew)),
       Num(compressType), Num(Bit(holdTimestamp)), Text(functionName), Text(clientCwd), Text(reserve1), Text(reserve2)]
    }
  }

  function Bit(b: bool): int {
    if b then 1 else 0
  }

  const CONFIG_TYPES := [One(U64T), One(U64T), One(U64T), Str, Str, Str, One(BoolT), One(U8T), One(BoolT),
                         Str, Str, Str, Str]

  lemma ConfigMembers(c: TransferConfig)
    ensures HasAll(Numbered(CONFIG_TYPES), c.Members()) && |Encode(Numbered(CONFIG_TYPES), c.Members())| < TWO64
  {
    hide Encode;
    FlatLength(CONFIG_TYPES, c.Members());
  }

  function EncodeConfig(c: TransferConfig): seq<Byte> {
    ConfigMembers(c);
    Encode(Numbered(CONFIG_TYPES), c.Members())
  }

  // Parsing over what the target held.
  function ParseConfig(was: TransferConfig, payload: seq<Byte>): TransferConfig {
    ConfigMembers(was);
    var vs := ParseFromString(Numbered(CONFIG_TYPES), was.Members(), payload);
    ConfigMembersAre(vs);
    TransferConfig(vs[0].n, vs[1].n, vs[2].n, vs[3].s, vs[4].s, vs[5].s, vs[6].n != 0,
                   vs[7].n, vs[8].n != 0, vs[9].s, vs[10].s, vs[11].s, vs[12].s)
  }

  lemma ConfigMembersAre(vs: seq<Value>)
    requires HasAll(Numbered(CONFIG_TYPES), vs)
    ensures |vs| == 13
    ensures forall i | 0 <= i < 13 :: if i in {3, 4, 5, 9, 10, 11, 12} then vs[i].Text? else vs[i].Num?
    ensures forall i | 0 <= i < 3 :: U64T.InRange(vs[i].n)
    ensures U8T.InRange(vs[7].n)
    ensures forall i | i in {3, 4, 5, 9, 10, 11, 12} :: |vs[i].s| < TWO31
  {
    hide HasAll;
    HasLength(Numbered(CONFIG_TYPES), vs);
    forall i | 0 <= i < 13 ensures Has(Field(i + 1, CONFIG_TYPES[i]), vs[i]) {
      HasAt(Numbered(CONFIG_TYPES), vs, i);
    }
  }

  lemma TransferConfigComesBack(was: TransferConfig, put: TransferConfig, next: TransferConfig, n: nat)
    ensures ParseConfig(was, EncodeConfig(put)) == put
    ensures ParseConfig(was, EncodeConfig(put) + Zeros(n)) == put
    ensures ParseConfig(was, EncodeConfig(put) + EncodeConfig(next)) == next
  {
    hide HasAll, Encode, Numbered, ParseFromString;
    ConfigMembers(was);
    ConfigMembers(put);
    ConfigMembers(next);
    FlatComesBack(CONFIG_TYPES, was.Members(), put.Members(), next.Members(), n);
  }

  lemma ConfigOnWire(c: TransferConfig)
    ensures EncodeConfig(c) ==
            Flatten([NumberRecord(1, c.fileSize), NumberRecord(2, c.atime), NumberRecord(3, c.mtime), TextRecord(4, c.options),
                     TextRecord(5, c.path), TextRecord(6, c.optionalName), NumberRecord(7, if c.updateIfNew then 1 else 0),
                     NumberRecord(8, c.compressType), NumberRecord(9, if c.holdTimestamp then 1 else 0),
                     TextRecord(10, c.functionName), TextRecord(11, c.clientCwd), TextRecord(12, c.reserve1),
                     TextRecord(13, c.reserve2)])
  {
    hide Encode, HasAll, NumberRecord, TextRecord, Flatten;
    ConfigMembers(c);
    EncodeRecords(CONFIG_TYPES, c.Members(),
                  [NumberRecord(1, c.fileSize), NumberRecord(2, c.atime), NumberRecord(3, c.mtime), TextRecord(4, c.options),
                   TextRecord(5, c.path), TextRecord(6, c.optionalName), NumberRecord(7, if c.updateIfNew then 1 else 0),
                   NumberRecord(8, c.compressType), NumberRecord(9, if c.holdTimestamp then 1 else 0),
                   TextRecord(10, c.functionName), TextRecord(11, c.clientCwd), TextRecord(12, c.reserve1),
                   TextRecord(13, c.reserve2)]);
  }

  // ---- TransferPayload -----------------------------------------------------------------------------

  datatype TransferPayload = TransferPayload(index: U64, compressType: Byte, compressSize: U32, uncompressSize: U32) {
    function Members(): seq<Value> {
      [Num(index), Num(compressType), Num(compressSize), Num(uncompressSize)]
    }
  }

  const PAYLOAD_TYPES := [One(U64T), One(U8T), One(U32T), One(U32T)]

  lemma PayloadMembers(p: TransferPayload)
    ensures HasAll(Numbered(PAYLOAD_TYPES), p.Members()) && |Encode(Numbered(PAYLOAD_TYPES), p.Members())| < TWO64
  {
    hide Encode;
    FlatLength(PAYLOAD_TYPES, p.Members());
  }

  function EncodePayload(p: TransferPayload): seq<Byte> {
    PayloadMembers(p);
    Encode(Numbered(PAYLOAD_TYPES), p.Members())
  }

  function ParsePayload(was: TransferPayload, prefix: seq<Byte>): TransferPayload {
    PayloadMembers(was);
    var vs := ParseFromString(Numbered(PAYLOAD_TYPES), was.Members(), prefix);
    PayloadMembersAre(vs);
    TransferPayload(vs[0].n, vs[1].n, vs[2].n, vs[3].n)
  }

  lemma PayloadMembersAre(vs: seq<Value>)
    requires HasAll(Numbered(PAYLOAD_TYPES), vs)
    ensures |vs| == 4 && (forall i | 0 <= i < 4 :: vs[i].Num?)
    ensures U64T.InRange(vs[0].n) && U8T.InRange(vs[1].n) && U32T.InRange(vs[2].n) && U32T.InRange(vs[3].n)
  {
    hide HasAll;
    HasLength(Numbered(PAYLOAD_TYPES), vs);
    HasAt(Numbered(PAYLOAD_TYPES), vs, 0);
    HasAt(Numbered(PAYLOAD_TYPES), vs, 1);
    HasAt(Numbered(PAYLOAD_TYPES), vs, 2);
    HasAt(Numbered(PAYLOAD_TYPES), vs, 3);
  }

  lemma TransferPayloadComesBack(was: TransferPayload, put: TransferPayload, next: TransferPayload, n: nat)
    ensures ParsePayload(was, EncodePayload(put)) == put
    ensures ParsePayload(was, EncodePayload(put) + Zeros(n)) == put
    ensures ParsePayload(was, EncodePayload(put) + EncodePayload(next)) == next
  {
    hide HasAll, Encode, Numbered, ParseFromString;
    PayloadMembers(was);
    PayloadMembers(put);
    PayloadMembers(next);
    FlatComesBack(PAYLOAD_TYPES, was.Members(), put.Members(), next.Members(), n);
  }

  lemma PayloadOnWire(p: TransferPayload)
    ensures EncodePayload(p) ==
            Flatten([NumberRecord(1, p.index), NumberRecord(2, p.compressType), NumberRecord(3, p.compressSize),
                     NumberRecord(4, p.uncompressSize)])
  {
    hide Encode, HasAll, NumberRecord, Flatten;
    PayloadMembers(p);
    EncodeRecords(PAYLOAD_TYPES, p.Members(),
                  [NumberRecord(1, p.index), NumberRecord(2, p.compressType), NumberRecord(3, p.compressSize),
                   NumberRecord(4, p.uncompressSize)]);
  }

  const PAYLOAD_PREFIX_RESERVE: nat := 64

  // SendIOPayload's prefix: the encoding at the front of 64 zero bytes. The room always suffices, so
  // its size check never refuses, and what RecvIOPayload parses from the prefix is what was put in.
  function Prefix(p: TransferPayload): (s: seq<Byte>)
    ensures |s| == PAYLOAD_PREFIX_RESERVE
  {
    PrefixHasRoom(p);
    EncodePayload(p) + Zeros(PAYLOAD_PREFIX_RESERVE - |EncodePayload(p)|)
  }

  lemma PrefixHasRoom(p: TransferPayload)
    ensures |EncodePayload(p)| + 1 <= PAYLOAD_PREFIX_RESERVE
  {
    hide EncodeField, Encode, HasAll;
    PayloadMembers(p);
    var fields, vs := Numbered(PAYLOAD_TYPES), p.Members();
    forall i | 0 <= i < |fields| ensures Has(fields[i], vs[i]) && |EncodeField(fields[i], vs[i])| <= 11 {
      NumberLength(fields[i], vs[i]);
    }
    LengthPointwise(fields, vs, 11);
  }

  lemma PrefixComesBack(was: TransferPayload, put: TransferPayload)
    ensures ParsePayload(was, Prefix(put)) == put
  {
    hide EncodePayload, ParsePayload;
    PrefixHasRoom(put);
    TransferPayloadComesBack(was, put, put, PAYLOAD_PREFIX_RESERVE - |EncodePayload(put)|);
  }

  // ---- SessionHandShake ------------------------------------------------------------------------------

  datatype SessionHandShake = SessionHandShake(
    banner: StdString, authType: Byte, sessionId: U32, connectKey: StdString, buf: StdString)
  {
    function Members(): seq<Value> {
      [Text(banner), Num(authType), Num(sessionId), Text(connectKey), Text(buf)]
    }
  }

  const HANDSHAKE_TYPES := [Str, One(U8T), One(U32T), Str, Str]

  lemma HandShakeMembers(h: SessionHandShake)
    ensures HasAll(Numbered(HANDSHAKE_TYPES), h.Members()) && |Encode(Numbered(HANDSHAKE_TYPES), h.Members())| < TWO64
  {
    hide Encode;
    FlatLength(HANDSHAKE_TYPES, h.Members());
  }

  function EncodeHandShake(h: SessionHandShake): seq<Byte> {
    HandShakeMembers(h);
    Encode(Numbered(HANDSHAKE_TYPES), h.Members())
  }

  function ParseHandShake(was: SessionHandShake, s: seq<Byte>): SessionHandShake {
    HandShakeMembers(was);
    var vs := ParseFromString(Numbered(HANDSHAKE_TYPES), was.Members(), s);
    HandShakeMembersAre(vs);
    SessionHandShake(vs[0].s, vs[1].n, vs[2].n, vs[3].s, vs[4].s)
  }

  lemma HandShakeMembersAre(vs: seq<Value>)
    requires HasAll(Numbered(HANDSHAKE_TYPES), vs)
    ensures |vs| == 5 && vs[0].Text? && vs[1].Num? && vs[2].Num? && vs[3].Text? && vs[4].Text?
    ensures U8T.InRange(vs[1].n) && U32T.InRange(vs[2].n)
    ensures |vs[0].s| < TWO31 && |vs[3].s| < TWO31 && |vs[4].s| < TWO31
  {
    hide HasAll;
    HasLength(Numbered(HANDSHAKE_TYPES), vs);
    forall i | 0 <= i < 5 ensures Has(Field(i + 1, HANDSHAKE_TYPES[i]), vs[i]) {
      HasAt(Numbered(HANDSHAKE_TYPES), vs, i);
    }
  }

  lemma SessionHandShakeComesBack(was: SessionHandShake, put: SessionHandShake, next: SessionHandShake, n: nat)
    ensures ParseHandShake(was, EncodeHandShake(put)) == put
    ensures ParseHandShake(was, EncodeHandShake(put) + Zeros(n)) == put
    ensures ParseHandShake(was, EncodeHandShake(put) + EncodeHandShake(next)) == next
  {
    hide HasAll, Encode, Numbered, ParseFromString;
    HandShakeMembers(was);
    HandShakeMembers(put);
    HandShakeMembers(next);
    FlatComesBack(HANDSHAKE_TYPES, was.Members(), put.Members(), next.Members(), n);
  }

  lemma HandShakeOnWire(h: SessionHandShake)
    ensures EncodeHandShake(h) ==
            Flatten([TextRecord(1, h.banner), NumberRecord(2, h.authType), NumberRecord(3, h.sessionId),
                     TextRecord(4, h.connectKey), TextRecord(5, h.buf)])
  {
    hide Encode, HasAll, NumberRecord, TextRecord, Flatten;
    HandShakeMembers(h);
    EncodeRecords(HANDSHAKE_TYPES, h.Members(),
                  [TextRecord(1, h.banner), NumberRecord(2, h.authType), NumberRecord(3, h.sessionId),
                   TextRecord(4, h.connectKey), TextRecord(5, h.buf)]);
  }

  // ---- PayloadProtect --------------------------------------------------------------------------------

  datatype PayloadProtect = PayloadProtect(channelId: U32, commandFlag: U32, checkSum: Byte, vCode: Byte) {
    function Members(): seq<Value> {
      [Num(channelId), Num(commandFlag), Num(checkSum), Num(vCode)]
    }
  }

  const PROTECT_TYPES := [One(U32T), One(U32T), One(U8T), One(U8T)]

  lemma ProtectMembers(p: PayloadProtect)
    ensures HasAll(Numbered(PROTECT_TYPES), p.Members()) && |Encode(Numbered(PROTECT_TYPES), p.Members())| <= 24
  {
    hide EncodeField, Encode, HasAll;
    var fields, vs := Numbered(PROTECT_TYPES), p.Members();
    forall i | 0 <= i < |fields| ensures Has(fields[i], vs[i]) && |EncodeField(fields[i], vs[i])| <= 6 {
      NumberLength(fields[i], vs[i]);
    }
    HasPointwise(fields, vs);
    LengthPointwise(fields, vs, 6);
  }

  function EncodeProtect(p: PayloadProtect): (s: seq<Byte>)
    ensures 0 < |s| <= 24
  {
    ProtectMembers(p);
    SomeBytes(p);
    Encode(Numbered(PROTECT_TYPES), p.Members())
  }

  lemma SomeBytes(p: PayloadProtect)
    requires HasAll(Numbered(PROTECT_TYPES), p.Members())
    ensures Encode(Numbered(PROTECT_TYPES), p.Members()) != []
  {
    hide Varint;
  }

  function ParseProtect(was: PayloadProtect, s: seq<Byte>): PayloadProtect {
    ProtectMembers(was);
    var vs := ParseFromString(Numbered(PROTECT_TYPES), was.Members(), s);
    ProtectMembersAre(vs);
    PayloadProtect(vs[0].n, vs[1].n, vs[2].n, vs[3].n)
  }

  lemma ProtectMembersAre(vs: seq<Value>)
    requires HasAll(Numbered(PROTECT_TYPES), vs)
    ensures |vs| == 4 && (forall i | 0 <= i < 4 :: vs[i].Num?)
    ensures U32T.InRange(vs[0].n) && U32T.InRange(vs[1].n) && U8T.InRange(vs[2].n) && U8T.InRange(vs[3].n)
  {
    hide HasAll;
    HasLength(Numbered(PROTECT_TYPES), vs);
    HasAt(Numbered(PROTECT_TYPES), vs, 0);
    HasAt(Numbered(PROTECT_TYPES), vs, 1);
    HasAt(Numbered(PROTECT_TYPES), vs, 2);
    HasAt(Numbered(PROTECT_TYPES), vs, 3);
  }

  lemma PayloadProtectComesBack(was: PayloadProtect, put: PayloadProtect, next: PayloadProtect, n: nat)
    ensures ParseProtect(was, EncodeProtect(put)) == put
    ensures ParseProtect(was, EncodeProtect(put) + Zeros(n)) == put
    ensures ParseProtect(was, EncodeProtect(put) + EncodeProtect(next)) == next
  {
    hide HasAll, Encode, Numbered, ParseFromString;
    ProtectMembers(was);
    ProtectMembers(put);
    ProtectMembers(next);
    FlatComesBack(PROTECT_TYPES, was.Members(), put.Members(), next.Members(), n);
  }

  lemma ProtectOnWire(p: PayloadProtect)
    ensures EncodeProtect(p) ==
            Flatten([NumberRecord(1, p.channelId), NumberRecord(2, p.commandFlag), NumberRecord(3, p.checkSum),
                     NumberRecord(4, p.vCode)])
  {
    hide Encode, HasAll, NumberRecord, Flatten;
    ProtectMembers(p);
    EncodeRecords(PROTECT_TYPES, p.Members(),
                  [NumberRecord(1, p.channelId), NumberRecord(2, p.commandFlag), NumberRecord(3, p.checkSum),
                   NumberRecord(4, p.vCode)]);
  }
}

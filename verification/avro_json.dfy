/** Avro's JSON encoding (section "JSON Encoding" of the Apache Avro 1.8.1 specification) of
    records, as `SpecificRecordEncoder` writes them in text mode: a record is an object of its
    fields in declaration order; a union value other than null is wrapped in an object whose one
    member is named after the branch type. The reader below undoes it. */
module AvroJson {
  import opened Results
  import opened AvroSchema
  import opened Json
  import Decimal

  /** Java's decimal text of float and double bit patterns (`Float.toString`, `Double.toString`),
      with a reader for it; the model leaves floating-point formatting to this parameter. */
  datatype RealFormat = RealFormat(show: (bool, nat) -> string, read: (bool, string) -> Option<nat>)

  /** The reader recovers every bit pattern from its text. */
  ghost predicate Faithful(fmt: RealFormat) {
    forall isDouble: bool, bits: nat :: fmt.read(isDouble, fmt.show(isDouble, bits)) == Some(bits)
  }

  /** ISO-8859-1 characters of raw bytes, the form Avro's JSON encoding gives `bytes` values. */
  function BytesAsChars(b: seq<Byte>): (s: string)
    ensures |s| == |b| && forall i :: 0 <= i < |b| ==> s[i] as int == b[i]
  {
    seq(|b|, i requires 0 <= i < |b| => b[i] as char)
  }

  function CharsAsBytes(s: string): Option<seq<Byte>> {
    if forall i :: 0 <= i < |s| ==> s[i] as int < 256 then
      Some(seq(|s|, i requires 0 <= i < |s| => s[i] as int))
    else None
  }

  function PrimitiveToJson(p: Primitive, d: Datum, fmt: RealFormat): JsonValue
    requires ConformsPrimitive(p, d)
  {
    match d
    case DBoolean(b) => JBool(b)
    case DInt(i) => JNumber(Decimal.IntToString(i))
    case DLong(l) => JNumber(Decimal.IntToString(l))
    case DFloat(bits) => JNumber(fmt.show(false, bits))
    case DDouble(bits) => JNumber(fmt.show(true, bits))
    case DString(s) => JString(s)
    case DBytes(b) => JString(BytesAsChars(b))
  }

  function FieldToJson(t: FieldType, d: Datum, fmt: RealFormat): (j: JsonValue)
    requires ConformsField(t, d)
    ensures t.Nullable? && d == DNull ==> j == JNull
    ensures t.Nullable? && d != DNull ==>
      j.JObject? && |j.members| == 1 && j.members[0].0 == TypeName(t.p)
    ensures t.Plain? ==> j != JNull && !(j.JObject?)
  {
    match t
    case Plain(p) => PrimitiveToJson(p, d, fmt)
    case Nullable(p) =>
      if d == DNull then JNull else JObject([(TypeName(p), PrimitiveToJson(p, d, fmt))])
  }

  /** One member per field, named and ordered as declared. */
  function FieldMembers(fields: seq<Field>, values: seq<Datum>, fmt: RealFormat): (ms: seq<(string, JsonValue)>)
    requires ConformsFields(fields, values)
    ensures |ms| == |fields|
    ensures forall i :: 0 <= i < |fields| ==> ms[i].0 == fields[i].name
  {
    if |fields| == 0 then []
    else
      ConformsCons(fields, values);
      [(fields[0].name, FieldToJson(fields[0].ftype, values[0], fmt))] + FieldMembers(fields[1..], values[1..], fmt)
  }

  /** The JSON tree of a conforming record. */
  function RecordToJson(schema: Schema, values: seq<Datum>, fmt: RealFormat): (j: JsonValue)
    requires Conforms(schema, values)
    ensures j.JObject? && |j.members| == |schema.fields|
    ensures forall i :: 0 <= i < |schema.fields| ==> j.members[i].0 == schema.fields[i].name
  {
    JObject(FieldMembers(schema.fields, values, fmt))
  }

  /** `AvroWriter.encode` in text mode: the JSON text of the record, or the error raised before any
      output when the record does not fit the schema. */
  function Encode(schema: Schema, values: seq<Datum>, fmt: RealFormat): (r: Result<string, EncodeError>)
    ensures r.Ok? <==> Conforms(schema, values)
    ensures r.Err? ==> Check(schema, values) == Some(r.error)
  {
    match Check(schema, values)
    case Some(e) => Err(e)
    case None => Ok(Render(RecordToJson(schema, values, fmt)))
  }

  function PrimitiveFromJson(p: Primitive, j: JsonValue, fmt: RealFormat): Option<Datum> {
    match (p, j)
    case (BooleanType, JBool(b)) => Some(DBoolean(b))
    case (IntType, JNumber(t)) =>
      (match Decimal.ParseInt(t)
       case Some(i) => if IsInt32(i) then Some(DInt(i)) else None
       case None => None)
    case (LongType, JNumber(t)) =>
      (match Decimal.ParseInt(t)
       case Some(l) => if IsInt64(l) then Some(DLong(l)) else None
       case None => None)
    case (FloatType, JNumber(t)) =>
      (match fmt.read(false, t)
       case Some(bits) => if bits < 0x1_0000_0000 then Some(DFloat(bits)) else None
       case None => None)
    case (DoubleType, JNumber(t)) =>
      (match fmt.read(true, t)
       case Some(bits) => if bits < 0x1_0000_0000_0000_0000 then Some(DDouble(bits)) else None
       case None => None)
    case (StringType, JString(s)) => Some(DString(s))
    case (BytesType, JString(s)) =>
      (match CharsAsBytes(s)
       case Some(b) => Some(DBytes(b))
       case None => None)
    case _ => None
  }

  function FieldFromJson(t: FieldType, j: JsonValue, fmt: RealFormat): Option<Datum> {
    match t
    case Plain(p) => PrimitiveFromJson(p, j, fmt)
    case Nullable(p) =>
      if j == JNull then Some(DNull)
      else if j.JObject? && |j.members| == 1 && j.members[0].0 == TypeName(p) then
        PrimitiveFromJson(p, j.members[0].1, fmt)
      else None
  }

  function FieldsFromJson(fields: seq<Field>, members: seq<(string, JsonValue)>, fmt: RealFormat): Option<seq<Datum>>
  {
    if |fields| == 0 then (if |members| == 0 then Some([]) else None)
    else if |members| == 0 || members[0].0 != fields[0].name then None
    else match FieldFromJson(fields[0].ftype, members[0].1, fmt)
      case None => None
      case Some(d) =>
        match FieldsFromJson(fields[1..], members[1..], fmt)
        case None => None
        case Some(ds) => Some([d] + ds)
  }

  /** Reads a record back from its JSON tree: members must be the fields, in order. */
  function RecordFromJson(schema: Schema, j: JsonValue, fmt: RealFormat): Option<seq<Datum>> {
    if j.JObject? then FieldsFromJson(schema.fields, j.members, fmt) else None
  }

  lemma PrimitiveRoundTrip(p: Primitive, d: Datum, fmt: RealFormat)
    requires ConformsPrimitive(p, d) && Faithful(fmt)
    ensures PrimitiveFromJson(p, PrimitiveToJson(p, d, fmt), fmt) == Some(d)
  {
    match d
    case DInt(i) => Decimal.ParseIntToString(i);
    case DLong(l) => Decimal.ParseIntToString(l);
    case DFloat(bits) => assert fmt.read(false, fmt.show(false, bits)) == Some(bits);
    case DDouble(bits) => assert fmt.read(true, fmt.show(true, bits)) == Some(bits);
    case DBytes(b) =>
      var s := BytesAsChars(b);
      assert forall i :: 0 <= i < |s| ==> s[i] as int < 256;
      assert seq(|s|, i requires 0 <= i < |s| => s[i] as int) == b;
    case _ =>
  }

  lemma FieldRoundTrip(t: FieldType, d: Datum, fmt: RealFormat)
    requires ConformsField(t, d) && Faithful(fmt)
    ensures FieldFromJson(t, FieldToJson(t, d, fmt), fmt) == Some(d)
  {
    if d != DNull {
      PrimitiveRoundTrip(t.p, d, fmt);
    }
  }

  lemma {:induction false} FieldsRoundTrip(fields: seq<Field>, values: seq<Datum>, fmt: RealFormat)
    requires ConformsFields(fields, values) && Faithful(fmt)
    ensures FieldsFromJson(fields, FieldMembers(fields, values, fmt), fmt) == Some(values)
  {
    if |fields| == 0 {
      assert values == [];
    } else {
      ConformsCons(fields, values);
      var members := FieldMembers(fields, values, fmt);
      assert members[1..] == FieldMembers(fields[1..], values[1..], fmt);
      FieldRoundTrip(fields[0].ftype, values[0], fmt);
      FieldsRoundTrip(fields[1..], values[1..], fmt);
      assert [values[0]] + values[1..] == values;
    }
  }

  /** Reading the JSON tree of a record gives the record back, whenever the number format can be
      read back. */
  lemma RecordRoundTrip(schema: Schema, values: seq<Datum>, fmt: RealFormat)
    requires Conforms(schema, values) && Faithful(fmt)
    ensures RecordFromJson(schema, RecordToJson(schema, values, fmt), fmt) == Some(values)
  {
    FieldsRoundTrip(schema.fields, values, fmt);
  }

  /** A three-field record has one member per field, in order. */
  lemma FieldMembersThree(fields: seq<Field>, values: seq<Datum>, fmt: RealFormat)
    requires |fields| == 3 && ConformsFields(fields, values)
    ensures ConformsField(fields[0].ftype, values[0]) && ConformsField(fields[1].ftype, values[1])
         && ConformsField(fields[2].ftype, values[2])
    ensures FieldMembers(fields, values, fmt)
         == [(fields[0].name, FieldToJson(fields[0].ftype, values[0], fmt)),
             (fields[1].name, FieldToJson(fields[1].ftype, values[1], fmt)),
             (fields[2].name, FieldToJson(fields[2].ftype, values[2], fmt))]
  {
    assert ConformsAt(fields, values, 0);
    assert ConformsAt(fields, values, 1);
    assert ConformsAt(fields, values, 2);
    ConformsCons(fields, values);
    ConformsCons(fields[1..], values[1..]);
    ConformsCons(fields[2..], values[2..]);
    var f1, v1 := fields[1..], values[1..];
    var f2, v2 := fields[2..], values[2..];
    assert f1[1..] == f2 && v1[1..] == v2;
    assert f2[1..] == [] && v2[1..] == [];
    var m0 := (fields[0].name, FieldToJson(fields[0].ftype, values[0], fmt));
    var m1 := (fields[1].name, FieldToJson(fields[1].ftype, values[1], fmt));
    var m2 := (fields[2].name, FieldToJson(fields[2].ftype, values[2], fmt));
    assert FieldMembers(f2, v2, fmt) == [m2] + FieldMembers(f2[1..], v2[1..], fmt) == [m2];
    assert FieldMembers(f1, v1, fmt) == [m1] + FieldMembers(f2, v2, fmt) == [m1, m2];
    assert FieldMembers(fields, values, fmt) == [m0] + FieldMembers(f1, v1, fmt);
  }

  /** The JSON tree of `ObservationKey("test", "a", "b")`. */
  lemma ObservationKeyTree(fmt: RealFormat)
    ensures Conforms(ObservationKey, [DString("test"), DString("a"), DString("b")])
    ensures RecordToJson(ObservationKey, [DString("test"), DString("a"), DString("b")], fmt)
         == JObject([("projectId", JObject([("string", JString("test"))])),
                     ("userId", JString("a")), ("sourceId", JString("b"))])
  {
    var values := [DString("test"), DString("a"), DString("b")];
    var fs := ObservationKey.fields;
    assert ConformsAt(fs, values, 0);
    assert ConformsAt(fs, values, 1);
    assert ConformsAt(fs, values, 2);
    FieldMembersThree(fs, values, fmt);
  }

  /** The JSON tree of `EmpaticaE4BloodVolumePulse(0d, 0d, 0f)` when zero prints as `0.0`. */
  lemma BloodVolumePulseTree(fmt: RealFormat)
    requires fmt.show(true, 0) == "0.0" && fmt.show(false, 0) == "0.0"
    ensures Conforms(EmpaticaE4BloodVolumePulse, [DDouble(0), DDouble(0), DFloat(0)])
    ensures RecordToJson(EmpaticaE4BloodVolumePulse, [DDouble(0), DDouble(0), DFloat(0)], fmt)
         == JObject([("time", JNumber("0.0")), ("timeReceived", JNumber("0.0")),
                     ("bloodVolumePulse", JNumber("0.0"))])
  {
    var values := [DDouble(0), DDouble(0), DFloat(0)];
    var fs := EmpaticaE4BloodVolumePulse.fields;
    assert ConformsAt(fs, values, 0);
    assert ConformsAt(fs, values, 1);
    assert ConformsAt(fs, values, 2);
    FieldMembersThree(fs, values, fmt);
  }

  lemma StringTestLiteral()
    ensures "\"" + "string" + "\":" + ("\"" + "test" + "\"") == "\"string\":\"test\""
  {
    assert "\"" + "test" + "\"" == "\"test\"";
  }

  lemma ProjectIdLiteral()
    ensures "\"" + "projectId" + "\":" + ("{" + ("\"" + "string" + "\":" + ("\"" + "test" + "\"")) + "}")
         == "\"projectId\":{\"string\":\"test\"}"
  {
    StringTestLiteral();
    assert "{" + "\"string\":\"test\"" + "}" == "{\"string\":\"test\"}";
  }

  lemma IdsLiteral()
    ensures "\"" + "userId" + "\":" + ("\"" + "a" + "\"") == "\"userId\":\"a\""
    ensures "\"" + "sourceId" + "\":" + ("\"" + "b" + "\"") == "\"sourceId\":\"b\""
  {
  }

  lemma ObservationKeyPrefix(p0: string)
    requires p0 == "\"projectId\":{\"string\":\"test\"}"
    ensures "{" + p0 + "," + "\"userId\":\"a\"" + "," == "{\"projectId\":{\"string\":\"test\"},\"userId\":\"a\","
  {
    assert "{" + p0 + "," == "{\"projectId\":{\"string\":\"test\"},";
  }

  lemma ObservationKeyLiteral(p0: string)
    requires p0 == "\"projectId\":{\"string\":\"test\"}"
    ensures "{" + p0 + "," + ("\"" + "userId" + "\":" + ("\"" + "a" + "\"")) + ","
            + ("\"" + "sourceId" + "\":" + ("\"" + "b" + "\"")) + "}"
         == "{\"projectId\":{\"string\":\"test\"},\"userId\":\"a\",\"sourceId\":\"b\"}"
  {
    IdsLiteral();
    ObservationKeyPrefix(p0);
    assert "{\"projectId\":{\"string\":\"test\"},\"userId\":\"a\"," + "\"sourceId\":\"b\"" + "}"
        == "{\"projectId\":{\"string\":\"test\"},\"userId\":\"a\",\"sourceId\":\"b\"}";
  }

  lemma ProjectIdText()
    ensures "\"" + "projectId" + "\":" + Render(JObject([("string", JString("test"))]))
         == "\"projectId\":{\"string\":\"test\"}"
  {
    QuotePlain("test");
    RenderObjectOne(("string", JString("test")));
    ProjectIdLiteral();
  }

  lemma ObservationKeyText()
    ensures Render(JObject([("projectId", JObject([("string", JString("test"))])),
                            ("userId", JString("a")), ("sourceId", JString("b"))]))
         == "{\"projectId\":{\"string\":\"test\"},\"userId\":\"a\",\"sourceId\":\"b\"}"
  {
    var inner := JObject([("string", JString("test"))]);
    QuotePlain("a");
    QuotePlain("b");
    RenderObjectThree(("projectId", inner), ("userId", JString("a")), ("sourceId", JString("b")));
    ProjectIdText();
    ObservationKeyLiteral("\"" + "projectId" + "\":" + Render(inner));
  }

  /** The key of SpecificRecordEncoderTest.testJson: the nullable project id is wrapped as
      `{"string": …}`, the plain ids are bare strings. */
  lemma ObservationKeyExample(fmt: RealFormat)
    ensures Encode(ObservationKey, [DString("test"), DString("a"), DString("b")], fmt)
         == Ok("{\"projectId\":{\"string\":\"test\"},\"userId\":\"a\",\"sourceId\":\"b\"}")
  {
    ObservationKeyTree(fmt);
    ObservationKeyText();
  }

  lemma BloodVolumePulseMembersLiteral()
    ensures "\"" + "time" + "\":" + "0.0" == "\"time\":0.0"
    ensures "\"" + "timeReceived" + "\":" + "0.0" == "\"timeReceived\":0.0"
    ensures "\"" + "bloodVolumePulse" + "\":" + "0.0" == "\"bloodVolumePulse\":0.0"
  {
  }

  lemma BloodVolumePulsePrefix()
    ensures "{" + "\"time\":0.0" + "," + "\"timeReceived\":0.0" + "," == "{\"time\":0.0,\"timeReceived\":0.0,"
  {
    assert "{" + "\"time\":0.0" + "," == "{\"time\":0.0,";
  }

  lemma BloodVolumePulseLiteral()
    ensures "{" + ("\"" + "time" + "\":" + "0.0") + "," + ("\"" + "timeReceived" + "\":" + "0.0") + ","
            + ("\"" + "bloodVolumePulse" + "\":" + "0.0") + "}"
         == "{\"time\":0.0,\"timeReceived\":0.0,\"bloodVolumePulse\":0.0}"
  {
    BloodVolumePulseMembersLiteral();
    BloodVolumePulsePrefix();
    assert "{\"time\":0.0,\"timeReceived\":0.0," + "\"bloodVolumePulse\":0.0" + "}"
        == "{\"time\":0.0,\"timeReceived\":0.0,\"bloodVolumePulse\":0.0}";
  }

  lemma BloodVolumePulseText()
    ensures Render(JObject([("time", JNumber("0.0")), ("timeReceived", JNumber("0.0")),
                            ("bloodVolumePulse", JNumber("0.0"))]))
         == "{\"time\":0.0,\"timeReceived\":0.0,\"bloodVolumePulse\":0.0}"
  {
    RenderObjectThree(("time", JNumber("0.0")), ("timeReceived", JNumber("0.0")),
                      ("bloodVolumePulse", JNumber("0.0")));
    BloodVolumePulseLiteral();
  }

  /** The value of SpecificRecordEncoderTest.testJson, for a format that prints zero as `0.0`. */
  lemma BloodVolumePulseExample(fmt: RealFormat)
    requires fmt.show(true, 0) == "0.0" && fmt.show(false, 0) == "0.0"
    ensures Encode(EmpaticaE4BloodVolumePulse, [DDouble(0), DDouble(0), DFloat(0)], fmt)
         == Ok("{\"time\":0.0,\"timeReceived\":0.0,\"bloodVolumePulse\":0.0}")
  {
    BloodVolumePulseTree(fmt);
    BloodVolumePulseText();
  }
}

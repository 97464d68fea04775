/** The part of Avro's data model the encoders handle: records of primitive fields, each field
    optionally made nullable by the union `["null", T]`, and the datum values stored in them. */
module AvroSchema {
  import opened Results

  datatype Primitive = BooleanType | IntType | LongType | FloatType | DoubleType | StringType | BytesType

  /** A field's type: a primitive, or the union of null (branch 0) and that primitive (branch 1). */
  datatype FieldType = Plain(p: Primitive) | Nullable(p: Primitive)

  datatype Field = Field(name: string, ftype: FieldType)

  /** A record schema: its fields in declaration order, and its JSON text as the Avro library
      prints it (opaque here; only the registry client sends it). */
  datatype Schema = Schema(name: string, fields: seq<Field>, text: string)

  /** A datum. Floating-point data are carried as their IEEE-754 bit patterns (Java's
      `Float.floatToIntBits` / `Double.doubleToLongBits`), which is all the binary encoding uses. */
  datatype Datum =
    | DNull
    | DBoolean(b: bool)
    | DInt(i: int)
    | DLong(l: int)
    | DFloat(floatBits: nat)
    | DDouble(doubleBits: nat)
    | DString(s: string)
    | DBytes(bytes: seq<Byte>)

  const Two31: int := 0x8000_0000
  const Two63: int := 0x8000_0000_0000_0000

  predicate IsInt32(i: int) {
    -Two31 <= i < Two31
  }

  predicate IsInt64(i: int) {
    -Two63 <= i < Two63
  }

  /** The type name Avro uses for a union branch in its JSON encoding. */
  function TypeName(p: Primitive): string {
    match p
    case BooleanType => "boolean"
    case IntType => "int"
    case LongType => "long"
    case FloatType => "float"
    case DoubleType => "double"
    case StringType => "string"
    case BytesType => "bytes"
  }

  predicate ConformsPrimitive(p: Primitive, d: Datum) {
    match p
    case BooleanType => d.DBoolean?
    case IntType => d.DInt? && IsInt32(d.i)
    case LongType => d.DLong? && IsInt64(d.l)
    case FloatType => d.DFloat? && d.floatBits < 0x1_0000_0000
    case DoubleType => d.DDouble? && d.doubleBits < 0x1_0000_0000_0000_0000
    case StringType => d.DString?
    case BytesType => d.DBytes?
  }

  predicate ConformsField(t: FieldType, d: Datum) {
    match t
    case Plain(p) => ConformsPrimitive(p, d)
    case Nullable(p) => d == DNull || ConformsPrimitive(p, d)
  }

  /** The datum at position i has the type of field i. */
  predicate ConformsAt(fields: seq<Field>, values: seq<Datum>, i: nat)
    requires i < |fields| && i < |values|
  {
    ConformsField(fields[i].ftype, values[i])
  }

  predicate ConformsFields(fields: seq<Field>, values: seq<Datum>) {
    |fields| == |values| && forall i :: 0 <= i < |fields| ==> ConformsAt(fields, values, i)
  }

  predicate Conforms(schema: Schema, values: seq<Datum>) {
    ConformsFields(schema.fields, values)
  }

  /** Why a record cannot be written with a schema: the field count differs, or the datum of a
      field does not have the field's type. */
  datatype EncodeError = FieldCountMismatch | FieldTypeMismatch(index: nat)

  /** The index of the first field whose datum does not fit its type. */
  function FirstMismatch(fields: seq<Field>, values: seq<Datum>): (r: Option<nat>)
    requires |fields| == |values|
    ensures r.None? <==> ConformsFields(fields, values)
    ensures r.Some? ==> r.value < |fields| && !ConformsField(fields[r.value].ftype, values[r.value])
    ensures r.Some? ==> ConformsFields(fields[..r.value], values[..r.value])
  {
    if |fields| == 0 then None
    else if !ConformsField(fields[0].ftype, values[0]) then
      assert !ConformsAt(fields, values, 0);
      Some(0)
    else
      ConformsCons(fields, values);
      match FirstMismatch(fields[1..], values[1..])
      case None => None
      case Some(k) =>
        assert fields[..k + 1] == [fields[0]] + fields[1..][..k];
        assert values[..k + 1] == [values[0]] + values[1..][..k];
        ConformsCons(fields[..k + 1], values[..k + 1]);
        Some(k + 1)
  }

  /** A non-empty record conforms exactly when its first field and the rest do. */
  lemma ConformsCons(fields: seq<Field>, values: seq<Datum>)
    requires |fields| == |values| > 0
    ensures ConformsFields(fields, values)
        <==> ConformsField(fields[0].ftype, values[0]) && ConformsFields(fields[1..], values[1..])
  {
    if ConformsFields(fields, values) {
      assert ConformsAt(fields, values, 0);
      forall i | 0 <= i < |fields| - 1
        ensures ConformsAt(fields[1..], values[1..], i)
      {
        assert ConformsAt(fields, values, i + 1);
      }
    }
    if ConformsField(fields[0].ftype, values[0]) && ConformsFields(fields[1..], values[1..]) {
      forall i | 0 <= i < |fields|
        ensures ConformsAt(fields, values, i)
      {
        if i > 0 {
          assert ConformsAt(fields[1..], values[1..], i - 1);
        }
      }
    }
  }

  /** Checks a record against a schema before anything is written. */
  function Check(schema: Schema, values: seq<Datum>): (r: Option<EncodeError>)
    ensures r.None? <==> Conforms(schema, values)
    ensures r == Some(FieldCountMismatch) <==> |values| != |schema.fields|
    ensures r.Some? && r.value.FieldTypeMismatch? ==>
      r.value.index < |values| && !ConformsField(schema.fields[r.value.index].ftype, values[r.value.index])
  {
    if |values| != |schema.fields| then Some(FieldCountMismatch)
    else match FirstMismatch(schema.fields, values)
      case None => None
      case Some(k) => Some(FieldTypeMismatch(k))
  }

  /** `org.radarcns.kafka.ObservationKey`: a nullable project id, then user and source ids. */
  const ObservationKey: Schema := Schema("ObservationKey",
    [Field("projectId", Nullable(StringType)), Field("userId", Plain(StringType)),
     Field("sourceId", Plain(StringType))],
    "{\"type\":\"record\",\"name\":\"ObservationKey\",\"namespace\":\"org.radarcns.kafka\"}")

  /** `org.radarcns.passive.empatica.EmpaticaE4BloodVolumePulse`: two timestamps and a float. */
  const EmpaticaE4BloodVolumePulse: Schema := Schema("EmpaticaE4BloodVolumePulse",
    [Field("time", Plain(DoubleType)), Field("timeReceived", Plain(DoubleType)),
     Field("bloodVolumePulse", Plain(FloatType))],
    "{\"type\":\"record\",\"name\":\"EmpaticaE4BloodVolumePulse\",\"namespace\":\"org.radarcns.passive.empatica\"}")

  /** `org.radarcns.passive.phone.PhoneLight`: two timestamps and a float. */
  const PhoneLight: Schema := Schema("PhoneLight",
    [Field("time", Plain(DoubleType)), Field("timeReceived", Plain(DoubleType)),
     Field("light", Plain(FloatType))],
    "{\"type\":\"record\",\"name\":\"PhoneLight\",\"namespace\":\"org.radarcns.passive.phone\"}")
}

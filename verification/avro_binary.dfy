/** Avro's binary encoding (section "Binary Encoding" of the Apache Avro 1.8.1 specification) of
    records, as `SpecificRecordEncoder` writes them in binary mode, with the decoder that undoes it. */
module AvroBinary {
  import opened Results
  import opened AvroSchema
  import Utf8

  /** Zig-zag coding: signed values map to unsigned ones so that small magnitudes stay small;
      non-negative n becomes 2n and negative n becomes -2n-1 (section "Primitive Types" of the
      binary encoding). */
  function ZigZag(n: int): (u: nat)
    ensures u % 2 == 0 <==> n >= 0
    ensures u <= 2 * (if n < 0 then -n else n)
  {
    if n >= 0 then 2 * n else -2 * n - 1
  }

  function UnZigZag(u: nat): int {
    if u % 2 == 0 then u / 2 else -(u + 1) / 2
  }

  /** Zig-zag coding is a bijection between the integers and the naturals. */
  lemma ZigZagBijection(n: int, u: nat)
    ensures UnZigZag(ZigZag(n)) == n
    ensures ZigZag(UnZigZag(u)) == u
  {
  }

  /** Base-128 varint: seven bits per byte, least significant group first, the high bit set on
      every byte but the last. */
  function Varint(u: nat): (r: seq<Byte>)
    ensures |r| >= 1 && r[|r| - 1] < 128
    ensures forall i :: 0 <= i < |r| - 1 ==> r[i] >= 128
    ensures u < 128 <==> |r| == 1
    decreases u
  {
    if u < 128 then [u] else [128 + u % 128] + Varint(u / 128)
  }

  function ReadVarint(b: seq<Byte>): Option<(nat, seq<Byte>)>
    decreases |b|
  {
    if |b| == 0 then None
    else if b[0] < 128 then Some((b[0] as nat, b[1..]))
    else match ReadVarint(b[1..])
      case None => None
      case Some((v, rest)) => Some((b[0] - 128 + 128 * v, rest))
  }

  lemma {:induction false} ReadVarintRoundTrip(u: nat, rest: seq<Byte>)
    ensures ReadVarint(Varint(u) + rest) == Some((u, rest))
    decreases u
  {
    if u >= 128 {
      ReadVarintRoundTrip(u / 128, rest);
      assert (Varint(u) + rest)[1..] == Varint(u / 128) + rest;
    }
  }

  function Pow(base: nat, k: nat): nat {
    if k == 0 then 1 else base * Pow(base, k - 1)
  }

  /** A value below 128^k takes at most k bytes; so a 64-bit long takes at most ten. */
  lemma {:induction false} VarintLength(u: nat, k: nat)
    requires k >= 1 && u < Pow(128, k)
    ensures |Varint(u)| <= k
    decreases k
  {
    if u >= 128 {
      assert k >= 2 by {
        assert Pow(128, 1) == 128;
      }
      assert Pow(128, k) == 128 * Pow(128, k - 1);
      assert u / 128 < Pow(128, k - 1);
      VarintLength(u / 128, k - 1);
    }
  }

  lemma LongTakesAtMostTenBytes(n: int)
    requires IsInt64(n)
    ensures |EncodeLong(n)| <= 10
  {
    assert Pow(128, 10) == 0x40_0000_0000_0000_0000;
    VarintLength(ZigZag(n), 10);
  }

  /** An int or long: zig-zag, then varint. */
  function EncodeLong(n: int): seq<Byte> {
    Varint(ZigZag(n))
  }

  function ReadLong(b: seq<Byte>): Option<(int, seq<Byte>)> {
    match ReadVarint(b)
    case None => None
    case Some((u, rest)) => Some((UnZigZag(u), rest))
  }

  lemma ReadLongRoundTrip(n: int, rest: seq<Byte>)
    ensures ReadLong(EncodeLong(n) + rest) == Some((n, rest))
  {
    ReadVarintRoundTrip(ZigZag(n), rest);
  }

  /** Fixed-width little-endian bytes of a bit pattern, as floats (4) and doubles (8) are written. */
  function LittleEndian(v: nat, width: nat): (r: seq<Byte>)
    ensures |r| == width
  {
    if width == 0 then [] else [v % 256] + LittleEndian(v / 256, width - 1)
  }

  function FromLittleEndian(b: seq<Byte>): nat {
    if |b| == 0 then 0 else b[0] + 256 * FromLittleEndian(b[1..])
  }

  lemma {:induction false} LittleEndianRoundTrip(v: nat, width: nat)
    requires v < Pow(256, width)
    ensures FromLittleEndian(LittleEndian(v, width)) == v
  {
    if width > 0 {
      LittleEndianRoundTrip(v / 256, width - 1);
    }
  }

  /** Bytes and strings: the length as a long, then the content. */
  function EncodeBytes(b: seq<Byte>): seq<Byte> {
    EncodeLong(|b|) + b
  }

  function ReadBytes(b: seq<Byte>): Option<(seq<Byte>, seq<Byte>)> {
    match ReadLong(b)
    case None => None
    case Some((n, rest)) =>
      if 0 <= n <= |rest| then Some((rest[..n], rest[n..])) else None
  }

  lemma ReadBytesRoundTrip(b: seq<Byte>, rest: seq<Byte>)
    ensures ReadBytes(EncodeBytes(b) + rest) == Some((b, rest))
  {
    ReadLongRoundTrip(|b|, b + rest);
    assert EncodeBytes(b) + rest == EncodeLong(|b|) + (b + rest);
    assert (b + rest)[..|b|] == b;
    assert (b + rest)[|b|..] == rest;
  }

  function EncodePrimitive(p: Primitive, d: Datum): seq<Byte>
    requires ConformsPrimitive(p, d)
  {
    match d
    case DBoolean(b) => [if b then 1 else 0]
    case DInt(i) => EncodeLong(i)
    case DLong(l) => EncodeLong(l)
    case DFloat(bits) => LittleEndian(bits, 4)
    case DDouble(bits) => LittleEndian(bits, 8)
    case DString(s) => EncodeBytes(Utf8.Encode(s))
    case DBytes(b) => EncodeBytes(b)
  }

  /** A field: a plain primitive carries no tag; a nullable one is its union branch index as a long
      (0 for null, 1 for the value) followed by the value, if any. */
  function EncodeField(t: FieldType, d: Datum): seq<Byte>
    requires ConformsField(t, d)
  {
    match t
    case Plain(p) => EncodePrimitive(p, d)
    case Nullable(p) => if d == DNull then EncodeLong(0) else EncodeLong(1) + EncodePrimitive(p, d)
  }

  /** Fields in declaration order, nothing between them and no names. */
  function EncodeFields(fields: seq<Field>, values: seq<Datum>): seq<Byte>
    requires ConformsFields(fields, values)
  {
    if |fields| == 0 then []
    else
      ConformsCons(fields, values);
      EncodeField(fields[0].ftype, values[0]) + EncodeFields(fields[1..], values[1..])
  }

  /** `AvroWriter.encode` in binary mode: the record's bytes, or the error raised before any byte
      is produced when the record does not fit the schema. */
  function Encode(schema: Schema, values: seq<Datum>): (r: Result<seq<Byte>, EncodeError>)
    ensures r.Ok? <==> Conforms(schema, values)
    ensures r.Err? ==> Check(schema, values) == Some(r.error)
  {
    match Check(schema, values)
    case Some(e) => Err(e)
    case None => Ok(EncodeFields(schema.fields, values))
  }

  function DecodePrimitive(p: Primitive, b: seq<Byte>): Option<(Datum, seq<Byte>)> {
    match p
    case BooleanType =>
      if |b| >= 1 && b[0] <= 1 then Some((DBoolean(b[0] == 1), b[1..])) else None
    case IntType =>
      (match ReadLong(b)
       case Some((n, rest)) => if IsInt32(n) then Some((DInt(n), rest)) else None
       case None => None)
    case LongType =>
      (match ReadLong(b)
       case Some((n, rest)) => if IsInt64(n) then Some((DLong(n), rest)) else None
       case None => None)
    case FloatType =>
      if |b| >= 4 then Some((DFloat(FromLittleEndian(b[..4])), b[4..])) else None
    case DoubleType =>
      if |b| >= 8 then Some((DDouble(FromLittleEndian(b[..8])), b[8..])) else None
    case StringType =>
      (match ReadBytes(b)
       case Some((content, rest)) =>
         (match Utf8.Decode(content)
          case Some(s) => Some((DString(s), rest))
          case None => None)
       case None => None)
    case BytesType =>
      (match ReadBytes(b)
       case Some((content, rest)) => Some((DBytes(content), rest))
       case None => None)
  }

  function DecodeField(t: FieldType, b: seq<Byte>): Option<(Datum, seq<Byte>)> {
    match t
    case Plain(p) => DecodePrimitive(p, b)
    case Nullable(p) =>
      match ReadLong(b)
      case Some((0, rest)) => Some((DNull, rest))
      case Some((1, rest)) => DecodePrimitive(p, rest)
      case _ => None
  }

  function DecodeFields(fields: seq<Field>, b: seq<Byte>): Option<(seq<Datum>, seq<Byte>)> {
    if |fields| == 0 then Some(([], b))
    else match DecodeField(fields[0].ftype, b)
      case None => None
      case Some((d, rest)) =>
        match DecodeFields(fields[1..], rest)
        case None => None
        case Some((ds, rest')) => Some(([d] + ds, rest'))
  }

  /** Reads one whole record; trailing bytes are an error. */
  function Decode(schema: Schema, b: seq<Byte>): Option<seq<Datum>> {
    match DecodeFields(schema.fields, b)
    case Some((values, rest)) => if |rest| == 0 then Some(values) else None
    case None => None
  }

  lemma DecodePrimitiveRoundTrip(p: Primitive, d: Datum, rest: seq<Byte>)
    requires ConformsPrimitive(p, d)
    ensures DecodePrimitive(p, EncodePrimitive(p, d) + rest) == Some((d, rest))
  {
    var e := EncodePrimitive(p, d);
    match d
    case DBoolean(_) =>
    case DInt(i) => ReadLongRoundTrip(i, rest);
    case DLong(l) => ReadLongRoundTrip(l, rest);
    case DFloat(bits) =>
      assert Pow(256, 4) == 0x1_0000_0000;
      LittleEndianRoundTrip(bits, 4);
      assert (e + rest)[..4] == e;
      assert (e + rest)[4..] == rest;
    case DDouble(bits) =>
      assert Pow(256, 8) == 0x1_0000_0000_0000_0000;
      LittleEndianRoundTrip(bits, 8);
      assert (e + rest)[..8] == e;
      assert (e + rest)[8..] == rest;
    case DString(s) =>
      ReadBytesRoundTrip(Utf8.Encode(s), rest);
      Utf8.DecodeEncode(s);
    case DBytes(b) => ReadBytesRoundTrip(b, rest);
  }

  lemma DecodeFieldRoundTrip(t: FieldType, d: Datum, rest: seq<Byte>)
    requires ConformsField(t, d)
    ensures DecodeField(t, EncodeField(t, d) + rest) == Some((d, rest))
  {
    match t
    case Plain(p) => DecodePrimitiveRoundTrip(p, d, rest);
    case Nullable(p) =>
      if d == DNull {
        ReadLongRoundTrip(0, rest);
      } else {
        var e := EncodePrimitive(p, d);
        ReadLongRoundTrip(1, e + rest);
        assert EncodeField(t, d) + rest == EncodeLong(1) + (e + rest);
        DecodePrimitiveRoundTrip(p, d, rest);
      }
  }

  lemma ConformsAppend(f1: seq<Field>, v1: seq<Datum>, f2: seq<Field>, v2: seq<Datum>)
    requires ConformsFields(f1, v1) && ConformsFields(f2, v2)
    ensures ConformsFields(f1 + f2, v1 + v2)
  {
    forall i | 0 <= i < |f1 + f2|
      ensures ConformsAt(f1 + f2, v1 + v2, i)
    {
      if i < |f1| {
        assert ConformsAt(f1, v1, i);
      } else {
        assert ConformsAt(f2, v2, i - |f1|);
      }
    }
  }

  lemma SeqAssoc<T>(a: seq<T>, b: seq<T>, c: seq<T>)
    ensures (a + b) + c == a + (b + c)
  {
  }

  lemma DropAppend<T>(a: seq<T>, b: seq<T>)
    requires |a| > 0
    ensures (a + b)[0] == a[0] && (a + b)[1..] == a[1..] + b
  {
  }

  lemma DecodeFieldsCons(fields: seq<Field>, b: seq<Byte>, d: Datum, mid: seq<Byte>, ds: seq<Datum>, rest: seq<Byte>)
    requires |fields| > 0
    requires DecodeField(fields[0].ftype, b) == Some((d, mid))
    requires DecodeFields(fields[1..], mid) == Some((ds, rest))
    ensures DecodeFields(fields, b) == Some(([d] + ds, rest))
  {
  }

  lemma {:induction false} DecodeFieldsRoundTrip(fields: seq<Field>, values: seq<Datum>, rest: seq<Byte>)
    requires ConformsFields(fields, values)
    ensures DecodeFields(fields, EncodeFields(fields, values) + rest) == Some((values, rest))
  {
    if |fields| > 0 {
      EncodeFieldsUnfold(fields, values);
      var head := EncodeField(fields[0].ftype, values[0]);
      var tail := EncodeFields(fields[1..], values[1..]);
      var b := EncodeFields(fields, values) + rest;
      assert b == head + (tail + rest) by {
        assert EncodeFields(fields, values) == head + tail;
        SeqAssoc(head, tail, rest);
      }
      DecodeFieldRoundTrip(fields[0].ftype, values[0], tail + rest);
      DecodeFieldsRoundTrip(fields[1..], values[1..], rest);
      DecodeFieldsCons(fields, b, values[0], tail + rest, values[1..], rest);
      assert [values[0]] + values[1..] == values;
    } else {
      assert values == [];
      assert EncodeFields(fields, values) + rest == rest;
    }
  }

  /** Decoding what the encoder wrote gives back the record. */
  lemma DecodeEncode(schema: Schema, values: seq<Datum>)
    requires Conforms(schema, values)
    ensures Encode(schema, values).Ok?
    ensures Decode(schema, Encode(schema, values).value) == Some(values)
  {
    DecodeFieldsRoundTrip(schema.fields, values, []);
    assert EncodeFields(schema.fields, values) + [] == EncodeFields(schema.fields, values);
  }

  lemma EncodeFieldsUnfold(fields: seq<Field>, values: seq<Datum>)
    requires ConformsFields(fields, values) && |fields| > 0
    ensures ConformsField(fields[0].ftype, values[0])
    ensures ConformsFields(fields[1..], values[1..])
    ensures EncodeFields(fields, values)
         == EncodeField(fields[0].ftype, values[0]) + EncodeFields(fields[1..], values[1..])
  {
    ConformsCons(fields, values);
  }

  /** A record's encoding is the concatenation of its fields' encodings: splitting the field list
      anywhere splits the bytes at the same place. */
  lemma {:induction false} EncodeFieldsAppend(f1: seq<Field>, v1: seq<Datum>, f2: seq<Field>, v2: seq<Datum>)
    requires ConformsFields(f1, v1) && ConformsFields(f2, v2)
    ensures ConformsFields(f1 + f2, v1 + v2)
    ensures EncodeFields(f1 + f2, v1 + v2) == EncodeFields(f1, v1) + EncodeFields(f2, v2)
  {
    ConformsAppend(f1, v1, f2, v2);
    if |f1| > 0 {
      EncodeFieldsUnfold(f1, v1);
      var h := EncodeField(f1[0].ftype, v1[0]);
      EncodeFieldsAppend(f1[1..], v1[1..], f2, v2);
      var tail := EncodeFields(f1[1..] + f2, v1[1..] + v2);
      assert EncodeFields(f1 + f2, v1 + v2) == h + tail by {
        EncodeFieldsUnfold(f1 + f2, v1 + v2);
        DropAppend(f1, f2);
        DropAppend(v1, v2);
      }
      SeqAssoc(h, EncodeFields(f1[1..], v1[1..]), EncodeFields(f2, v2));
    } else {
      assert f1 + f2 == f2;
      assert v1 + v2 == v2;
    }
  }

  /** A string is its UTF-8 byte count as a zig-zag varint followed by those bytes; the count of a
      non-empty string is twice its byte length in the first byte when short. */
  lemma StringEncoding(s: string)
    ensures EncodePrimitive(StringType, DString(s)) == Varint(2 * |Utf8.Encode(s)|) + Utf8.Encode(s)
    ensures |EncodePrimitive(StringType, DString(s))| == |Varint(2 * |Utf8.Encode(s)|)| + |Utf8.Encode(s)|
  {
  }

  /** A nullable field starts with its branch tag, 0 for null and 2 (zig-zag of 1) otherwise; a
      plain field of the same datum has no tag. */
  lemma NullableTag(p: Primitive, d: Datum)
    requires ConformsField(Nullable(p), d)
    ensures d == DNull ==> EncodeField(Nullable(p), d) == [0]
    ensures d != DNull ==> EncodeField(Nullable(p), d) == [2] + EncodeField(Plain(p), d)
  {
  }

  /** `bytes` are the character codes of `s`, all of them ASCII. */
  predicate AsciiCodes(s: string, bytes: seq<Byte>) {
    |s| == |bytes| && (|s| == 0 || (s[0] as int < 0x80 && bytes[0] == s[0] as int && AsciiCodes(s[1..], bytes[1..])))
  }

  lemma {:induction false} AsciiCodesAt(s: string, bytes: seq<Byte>)
    requires AsciiCodes(s, bytes)
    ensures forall i :: 0 <= i < |s| ==> s[i] as int < 0x80 && bytes[i] == s[i] as int
    decreases |s|
  {
    if |s| > 0 {
      AsciiCodesAt(s[1..], bytes[1..]);
      assert forall i :: 1 <= i < |s| ==> s[i] == s[1..][i - 1] && bytes[i] == bytes[1..][i - 1];
    }
  }

  /** A short ASCII string is its doubled length in one byte, then its character codes. */
  lemma ShortAsciiString(s: string, bytes: seq<Byte>)
    requires |s| < 64 && AsciiCodes(s, bytes)
    ensures EncodeField(Plain(StringType), DString(s)) == [2 * |s|] + bytes
  {
    AsciiCodesAt(s, bytes);
    Utf8.EncodeAscii(s);
    assert Utf8.Encode(s) == bytes;
  }

  /** The fields of `ObservationKey("test", "a", "b")`: the nullable project id carries branch
      tag 2 before its length 8 and bytes; the two plain ids are length 2 and one byte. */
  lemma ObservationKeyFieldBytes()
    ensures EncodeField(Nullable(StringType), DString("test")) == [2, 8, 116, 101, 115, 116]
    ensures EncodeField(Plain(StringType), DString("a")) == [2, 97]
    ensures EncodeField(Plain(StringType), DString("b")) == [2, 98]
  {
    ProjectIdBytes();
    ShortAsciiString("a", [97]);
    ShortAsciiString("b", [98]);
  }

  lemma ProjectIdBytes()
    ensures EncodeField(Nullable(StringType), DString("test")) == [2, 8, 116, 101, 115, 116]
  {
    ShortAsciiString("test", [116, 101, 115, 116]);
    NullableTag(StringType, DString("test"));
  }

  /** The key `ObservationKey("test", "a", "b")` of SpecificRecordEncoderTest.testBinary. */
  lemma ObservationKeyExample()
    ensures Encode(ObservationKey, [DString("test"), DString("a"), DString("b")])
         == Ok([2, 8, 116, 101, 115, 116, 2, 97, 2, 98])
  {
    var values := [DString("test"), DString("a"), DString("b")];
    var fields := ObservationKey.fields;
    assert ConformsAt(fields, values, 0) && ConformsAt(fields, values, 1) && ConformsAt(fields, values, 2);
    EncodeFieldsThree(fields, values);
    ObservationKeyFieldBytes();
    var e0: seq<Byte>, e1: seq<Byte>, e2: seq<Byte> := [2, 8, 116, 101, 115, 116], [2, 97], [2, 98];
    assert EncodeFields(fields, values) == e0 + (e1 + e2);
    assert e0 + (e1 + e2) == [2, 8, 116, 101, 115, 116, 2, 97, 2, 98];
    assert Check(ObservationKey, values) == None;
  }

  lemma EncodeFieldsCons(fields: seq<Field>, values: seq<Datum>)
    requires |fields| > 0 && ConformsFields(fields, values)
    ensures ConformsField(fields[0].ftype, values[0]) && ConformsFields(fields[1..], values[1..])
    ensures EncodeFields(fields, values) == EncodeField(fields[0].ftype, values[0]) + EncodeFields(fields[1..], values[1..])
  {
    ConformsCons(fields, values);
  }

  /** A record of three fields is the three fields' bytes, one after the other. */
  lemma EncodeFieldsThree(fields: seq<Field>, values: seq<Datum>)
    requires |fields| == 3 && ConformsFields(fields, values)
    ensures ConformsField(fields[0].ftype, values[0]) && ConformsField(fields[1].ftype, values[1])
         && ConformsField(fields[2].ftype, values[2])
    ensures EncodeFields(fields, values)
         == EncodeField(fields[0].ftype, values[0]) + (EncodeField(fields[1].ftype, values[1])
            + EncodeField(fields[2].ftype, values[2]))
  {
    var f1, v1 := fields[1..], values[1..];
    var f2, v2 := f1[1..], v1[1..];
    EncodeFieldsCons(fields, values);
    EncodeFieldsCons(f1, v1);
    EncodeFieldsCons(f2, v2);
    assert f1[0] == fields[1] && v1[0] == values[1] && f2[0] == fields[2] && v2[0] == values[2];
    assert |f2[1..]| == 0;
    assert EncodeField(f2[0].ftype, v2[0]) + [] == EncodeField(f2[0].ftype, v2[0]);
  }

  /** The all-zero bit pattern is written as zero bytes. */
  lemma {:induction false} LittleEndianZero(width: nat)
    ensures LittleEndian(0, width) == seq(width, i => 0)
  {
    if width > 0 {
      LittleEndianZero(width - 1);
      assert LittleEndian(0, width) == [0] + seq(width - 1, i => 0);
    }
  }

  /** The value `EmpaticaE4BloodVolumePulse(0d, 0d, 0f)`: two 8-byte and one 4-byte zero pattern. */
  lemma BloodVolumePulseExample()
    ensures Encode(EmpaticaE4BloodVolumePulse, [DDouble(0), DDouble(0), DFloat(0)])
         == Ok(seq(20, i => 0))
  {
    var values := [DDouble(0), DDouble(0), DFloat(0)];
    var fields := EmpaticaE4BloodVolumePulse.fields;
    assert ConformsAt(fields, values, 0) && ConformsAt(fields, values, 1) && ConformsAt(fields, values, 2);
    EncodeFieldsThree(fields, values);
    LittleEndianZero(8);
    LittleEndianZero(4);
    var z8: seq<Byte>, z4: seq<Byte> := seq(8, i => 0), seq(4, i => 0);
    assert EncodeFields(fields, values) == z8 + (z8 + z4);
    assert z8 + (z8 + z4) == seq(20, i => 0);
  }
}

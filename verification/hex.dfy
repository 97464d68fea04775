/** The test helper `byteArrayToHex`: each byte of a Java `byte[]` as two lower-case hex digits. */
module Hex {
  import opened Results

  /** A Java `byte`: signed, two's complement. */
  type JavaByte = b: int | -128 <= b < 128

  const LowerHexDigits: string := "0123456789abcdef"

  /** `b & 0xff`: the unsigned value with the same eight bits. */
  function Unsigned(b: JavaByte): (u: Byte)
    ensures (u - b) % 256 == 0
    ensures b >= 0 ==> u == b
    ensures b < 0 ==> u == b + 256
  {
    if b < 0 then b + 256 else b
  }

  /** `s` is the hex text of `a`: two digits per byte, high nibble first. */
  predicate IsHexOf(a: seq<JavaByte>, s: string) {
    |s| == 2 * |a| &&
    forall i :: 0 <= i < |a| ==>
      s[2 * i] == LowerHexDigits[Unsigned(a[i]) / 16] && s[2 * i + 1] == LowerHexDigits[Unsigned(a[i]) % 16]
  }

  /** `String.format("%02x", …)` over the bytes, appended in order. */
  method ByteArrayToHex(a: seq<JavaByte>) returns (s: string)
    ensures IsHexOf(a, s)
  {
    s := "";
    var k := 0;
    while k < |a|
      invariant 0 <= k <= |a|
      invariant |s| == 2 * k
      invariant forall i :: 0 <= i < k ==>
        s[2 * i] == LowerHexDigits[Unsigned(a[i]) / 16] && s[2 * i + 1] == LowerHexDigits[Unsigned(a[i]) % 16]
    {
      var u := Unsigned(a[k]);
      s := s + [LowerHexDigits[u / 16], LowerHexDigits[u % 16]];
      k := k + 1;
    }
  }

  /** The value of a lower-case hex digit. */
  function DigitValue(c: char): (r: Option<nat>)
    ensures r.Some? ==> r.value < 16 && LowerHexDigits[r.value] == c
    ensures c in LowerHexDigits ==> r.Some?
  {
    if '0' <= c <= '9' then Some(c as int - '0' as int)
    else if 'a' <= c <= 'f' then Some(c as int - 'a' as int + 10)
    else None
  }

  /** Reads hex text back into unsigned bytes; odd length or a foreign character is rejected. */
  function ParseHex(s: string): (r: Option<seq<Byte>>)
    ensures r.Some? ==> 2 * |r.value| == |s|
    decreases |s|
  {
    if |s| == 0 then Some([])
    else if |s| == 1 then None
    else match (DigitValue(s[0]), DigitValue(s[1]), ParseHex(s[2..]))
      case (Some(hi), Some(lo), Some(rest)) => Some([hi * 16 + lo] + rest)
      case _ => None
  }

  lemma IsHexOfTail(a: seq<JavaByte>, s: string)
    requires |a| > 0 && IsHexOf(a, s)
    ensures IsHexOf(a[1..], s[2..])
  {
    forall i | 0 <= i < |a[1..]|
      ensures s[2..][2 * i] == LowerHexDigits[Unsigned(a[1..][i]) / 16]
      ensures s[2..][2 * i + 1] == LowerHexDigits[Unsigned(a[1..][i]) % 16]
    {
      assert a[1..][i] == a[i + 1];
      assert s[2..][2 * i] == s[2 * (i + 1)];
      assert s[2..][2 * i + 1] == s[2 * (i + 1) + 1];
    }
  }

  lemma ParseHexHead(a: seq<JavaByte>, s: string)
    requires |a| > 0 && IsHexOf(a, s)
    ensures DigitValue(s[0]) == Some(Unsigned(a[0]) / 16)
    ensures DigitValue(s[1]) == Some(Unsigned(a[0]) % 16)
  {
    assert s[0] == LowerHexDigits[Unsigned(a[0]) / 16];
    assert s[1] == LowerHexDigits[Unsigned(a[0]) % 16];
  }

  /** The unsigned values of the bytes, in order. */
  function UnsignedAll(a: seq<JavaByte>): (r: seq<Byte>)
    ensures |r| == |a|
    ensures forall i :: 0 <= i < |a| ==> r[i] == Unsigned(a[i])
  {
    if |a| == 0 then [] else [Unsigned(a[0])] + UnsignedAll(a[1..])
  }

  lemma ParseHexCons(s: string, hi: nat, lo: nat, rest: seq<Byte>)
    requires |s| >= 2 && hi * 16 + lo < 256
    requires DigitValue(s[0]) == Some(hi) && DigitValue(s[1]) == Some(lo)
    requires ParseHex(s[2..]) == Some(rest)
    ensures ParseHex(s) == Some([hi * 16 + lo] + rest)
  {
    assert (DigitValue(s[0]), DigitValue(s[1]), ParseHex(s[2..])) == (Some(hi), Some(lo), Some(rest));
  }

  /** The hex text reads back as the unsigned values of the bytes. */
  lemma {:induction false} ParseHexOfHex(a: seq<JavaByte>, s: string)
    requires IsHexOf(a, s)
    ensures ParseHex(s) == Some(UnsignedAll(a))
    decreases |a|
  {
    if |a| > 0 {
      var u := Unsigned(a[0]);
      ParseHexHead(a, s);
      IsHexOfTail(a, s);
      ParseHexOfHex(a[1..], s[2..]);
      ParseHexCons(s, u / 16, u % 16, UnsignedAll(a[1..]));
      assert u / 16 * 16 + u % 16 == u;
      assert UnsignedAll(a) == [u] + UnsignedAll(a[1..]);
    } else {
      assert s == [];
    }
  }

  /** Hex texts of consecutive byte runs concatenate. */
  lemma IsHexOfAppend(a1: seq<JavaByte>, s1: string, a2: seq<JavaByte>, s2: string)
    requires IsHexOf(a1, s1) && IsHexOf(a2, s2)
    ensures IsHexOf(a1 + a2, s1 + s2)
  {
    var a, s := a1 + a2, s1 + s2;
    forall i | 0 <= i < |a|
      ensures s[2 * i] == LowerHexDigits[Unsigned(a[i]) / 16]
      ensures s[2 * i + 1] == LowerHexDigits[Unsigned(a[i]) % 16]
    {
      if i >= |a1| {
        assert a[i] == a2[i - |a1|];
        assert s[2 * i] == s2[2 * (i - |a1|)];
        assert s[2 * i + 1] == s2[2 * (i - |a1|) + 1];
      }
    }
  }

  lemma KeyHexFirstHalf()
    ensures IsHexOf([2, 8, 116, 101, 115], "0208746573")
  {
  }

  lemma KeyHexSecondHalf()
    ensures IsHexOf([116, 2, 97, 2, 98], "7402610262")
  {
  }

  /** The expected key of SpecificRecordEncoderTest.testBinary prints as `02087465737402610262`. */
  lemma ExpectedKeyHex()
    ensures IsHexOf([2, 8, 116, 101, 115, 116, 2, 97, 2, 98], "02087465737402610262")
  {
    KeyHexFirstHalf();
    KeyHexSecondHalf();
    IsHexOfAppend([2, 8, 116, 101, 115], "0208746573", [116, 2, 97, 2, 98], "7402610262");
    assert [2, 8, 116, 101, 115] + [116, 2, 97, 2, 98] == [2, 8, 116, 101, 115, 116, 2, 97, 2, 98];
    assert "0208746573" + "7402610262" == "02087465737402610262";
  }

  /** Negative bytes print as their unsigned value: -1 is `ff` and -128 is `80`. */
  lemma NegativeBytesHex()
    ensures IsHexOf([-1, 0, 127, -128], "ff007f80")
  {
  }
}

/** JSON text as the components exchange it: string escaping after section 7 of RFC 8259, and a
    value tree with its compact rendering (no insignificant whitespace), the form Jackson writes. */
module Json {
  import opened Results

  datatype JsonValue =
    | JNull
    | JBool(b: bool)
    | JNumber(text: string)
    | JString(s: string)
    | JArray(items: seq<JsonValue>)
    | JObject(members: seq<(string, JsonValue)>)

  const HexDigits: string := "0123456789ABCDEF"

  function HexValue(c: char): (r: Option<nat>)
    ensures r.Some? ==> r.value < 16
  {
    if '0' <= c <= '9' then Some(c as int - '0' as int)
    else if 'A' <= c <= 'F' then Some(c as int - 'A' as int + 10)
    else if 'a' <= c <= 'f' then Some(c as int - 'a' as int + 10)
    else None
  }

  /** The escape sequence of one character: quotation mark, reverse solidus and the control
      characters must be escaped; the five controls with a short form use it, the rest `\u00XX`. */
  function EscapeChar(c: char): (r: string)
    ensures |r| >= 1
    ensures r[0] == '\\' <==> (c == '"' || c == '\\' || c < ' ')
    ensures r[0] != '\\' ==> r == [c]
  {
    if c == '"' then "\\\""
    else if c == '\\' then "\\\\"
    else if c == '\U{8}' then "\\b"
    else if c == '\U{C}' then "\\f"
    else if c == '\n' then "\\n"
    else if c == '\r' then "\\r"
    else if c == '\t' then "\\t"
    else if c < ' ' then "\\u00" + [HexDigits[c as int / 16], HexDigits[c as int % 16]]
    else [c]
  }

  function Escape(s: string): (r: string)
    ensures |r| >= |s|
  {
    if |s| == 0 then "" else EscapeChar(s[0]) + Escape(s[1..])
  }

  /** A JSON string literal. */
  function Quote(s: string): string {
    "\"" + Escape(s) + "\""
  }

  /** Reads one (possibly escaped) character at the start of the body of a string literal;
      returns it and the number of characters read. An unescaped quotation mark or control
      character cannot occur inside a literal. */
  function UnescapeFirst(t: string): Option<(char, nat)> {
    if |t| == 0 || t[0] == '"' || t[0] < ' ' then None
    else if t[0] != '\\' then Some((t[0], 1))
    else if |t| < 2 then None
    else if t[1] == '"' then Some(('"', 2))
    else if t[1] == '\\' then Some(('\\', 2))
    else if t[1] == '/' then Some(('/', 2))
    else if t[1] == 'b' then Some(('\U{8}', 2))
    else if t[1] == 'f' then Some(('\U{C}', 2))
    else if t[1] == 'n' then Some(('\n', 2))
    else if t[1] == 'r' then Some(('\r', 2))
    else if t[1] == 't' then Some(('\t', 2))
    else if t[1] == 'u' && |t| >= 6 then
      match (HexValue(t[2]), HexValue(t[3]), HexValue(t[4]), HexValue(t[5]))
      case (Some(a), Some(b), Some(c), Some(d)) =>
        var n := ((a * 16 + b) * 16 + c) * 16 + d;
        if n < 0xD800 || 0xE000 <= n then Some((n as char, 6)) else None
      case _ => None
    else None
  }

  /** The characters denoted by the body of a string literal. */
  function Unescape(t: string): Option<string>
    decreases |t|
  {
    if |t| == 0 then Some("")
    else match UnescapeFirst(t)
      case None => None
      case Some((c, k)) =>
        if 1 <= k <= |t| then
          match Unescape(t[k..])
          case None => None
          case Some(s) => Some([c] + s)
        else None
  }

  lemma UnescapeEscapeChar(c: char, rest: string)
    ensures UnescapeFirst(EscapeChar(c) + rest) == Some((c, |EscapeChar(c)|))
  {
    if c < ' ' && c != '\U{8}' && c != '\U{C}' && c != '\n' && c != '\r' && c != '\t' {
      var t := EscapeChar(c) + rest;
      assert HexValue(t[4]) == Some(c as int / 16);
      assert HexValue(t[5]) == Some(c as int % 16);
    }
  }

  /** Escaping is undone by unescaping: the literal denotes exactly the original text. */
  lemma {:induction false} UnescapeEscape(s: string)
    ensures Unescape(Escape(s)) == Some(s)
  {
    if |s| > 0 {
      var e := EscapeChar(s[0]);
      UnescapeEscapeChar(s[0], Escape(s[1..]));
      assert (e + Escape(s[1..]))[|e|..] == Escape(s[1..]);
      UnescapeEscape(s[1..]);
      assert [s[0]] + s[1..] == s;
    }
  }

  /** Escaping works character by character, so it distributes over concatenation. */
  lemma {:induction false} EscapeAppend(a: string, b: string)
    ensures Escape(a + b) == Escape(a) + Escape(b)
    decreases |a|
  {
    if |a| > 0 {
      assert (a + b)[1..] == a[1..] + b;
      EscapeAppend(a[1..], b);
    } else {
      assert a + b == b;
    }
  }

  lemma EscapeQuoteMark()
    ensures Escape("\"") == "\\\""
  {
    assert "\""[1..] == "";
  }

  /** Text in quotation marks escapes to its escaped body between escaped quotation marks. */
  lemma EscapeQuoted(text: string)
    ensures Escape("\"" + text + "\"") == "\\\"" + Escape(text) + "\\\""
  {
    var q := "\"";
    EscapeQuoteMark();
    EscapeAppend(q + text, q);
    EscapeAppend(q, text);
  }

  /** Every quotation mark in `t` directly follows a reverse solidus. */
  predicate QuotesEscaped(t: string) {
    forall i :: 0 <= i < |t| && t[i] == '"' ==> i > 0 && t[i - 1] == '\\'
  }

  lemma EscapeCharQuotesEscaped(c: char)
    ensures QuotesEscaped(EscapeChar(c))
  {
    var e := EscapeChar(c);
    if c < ' ' && c != '\U{8}' && c != '\U{C}' && c != '\n' && c != '\r' && c != '\t' {
      assert e == "\\u00" + [HexDigits[c as int / 16], HexDigits[c as int % 16]];
      assert HexDigits[c as int / 16] != '"' && HexDigits[c as int % 16] != '"';
    }
  }

  lemma QuotesEscapedAppend(e: string, t: string)
    requires |e| > 0 && e[0] != '"' && QuotesEscaped(e) && QuotesEscaped(t)
    requires |t| > 0 ==> t[0] != '"' || e[|e| - 1] == '\\'
    ensures QuotesEscaped(e + t)
  {
    var u := e + t;
    forall i | 0 <= i < |u| && u[i] == '"'
      ensures i > 0 && u[i - 1] == '\\'
    {
      if i >= |e| {
        assert t[i - |e|] == '"';
      }
    }
  }

  /** The escaped body never holds a bare quotation mark, so the literal ends where it should. */
  lemma {:induction false} EscapeHasNoBareQuote(s: string)
    ensures QuotesEscaped(Escape(s))
    ensures |Escape(s)| > 0 ==> Escape(s)[0] != '"'
  {
    if |s| > 0 {
      EscapeHasNoBareQuote(s[1..]);
      var e := EscapeChar(s[0]);
      var t := Escape(s[1..]);
      assert Escape(s) == e + t;
      EscapeCharQuotesEscaped(s[0]);
      assert e[0] != '"';
      QuotesEscapedAppend(e, t);
    }
  }

  /** A character that stands for itself inside a string literal. */
  predicate IsPlain(c: char) {
    c != '"' && c != '\\' && c >= ' '
  }

  /** Text without quotation marks, reverse solidi or control characters is quoted as it is. */
  lemma {:induction false} QuotePlain(s: string)
    requires forall i :: 0 <= i < |s| ==> IsPlain(s[i])
    ensures Escape(s) == s
    ensures Quote(s) == "\"" + s + "\""
  {
    if |s| > 0 {
      QuotePlain(s[1..]);
      assert [s[0]] + s[1..] == s;
    }
  }

  function Join(parts: seq<string>, sep: string): string {
    if |parts| == 0 then ""
    else if |parts| == 1 then parts[0]
    else parts[0] + sep + Join(parts[1..], sep)
  }

  /** Compact JSON text of a value, members and items in their stored order. */
  function Render(v: JsonValue): string
    decreases v
  {
    match v
    case JNull => "null"
    case JBool(b) => if b then "true" else "false"
    case JNumber(text) => text
    case JString(s) => Quote(s)
    case JArray(items) =>
      "[" + Join(seq(|items|, i requires 0 <= i < |items| => Render(items[i])), ",") + "]"
    case JObject(members) =>
      "{" + Join(seq(|members|, i requires 0 <= i < |members| =>
                       Quote(members[i].0) + ":" + Render(members[i].1)), ",") + "}"
  }

  /** Joining three parts puts the separator between neighbours only. */
  lemma JoinThree(a: string, b: string, c: string, sep: string)
    ensures Join([a, b, c], sep) == a + sep + b + sep + c
  {
    assert [a, b, c][1..] == [b, c];
    assert [b, c][1..] == [c];
    calc {
      Join([a, b, c], sep);
      a + sep + Join([b, c], sep);
      a + sep + (b + sep + c);
    }
  }

  /** A member whose name needs no escaping is written as the quoted name, a colon and the value. */
  lemma MemberText(name: string, v: JsonValue)
    requires forall i :: 0 <= i < |name| ==> IsPlain(name[i])
    ensures Quote(name) + ":" + Render(v) == "\"" + name + "\":" + Render(v)
  {
    QuotePlain(name);
  }

  lemma RenderObjectThreeQuoted(m0: (string, JsonValue), m1: (string, JsonValue), m2: (string, JsonValue))
    ensures Render(JObject([m0, m1, m2]))
         == "{" + (Quote(m0.0) + ":" + Render(m0.1)) + "," + (Quote(m1.0) + ":" + Render(m1.1)) + ","
                + (Quote(m2.0) + ":" + Render(m2.1)) + "}"
  {
    var ms := [m0, m1, m2];
    var texts := seq(|ms|, i requires 0 <= i < |ms| => Quote(ms[i].0) + ":" + Render(ms[i].1));
    assert texts == [Quote(m0.0) + ":" + Render(m0.1), Quote(m1.0) + ":" + Render(m1.1),
                     Quote(m2.0) + ":" + Render(m2.1)];
    JoinThree(texts[0], texts[1], texts[2], ",");
  }

  /** A three-member object whose names need no escaping is the braces around the three
      `"name":value` texts, separated by commas. */
  lemma RenderObjectThree(m0: (string, JsonValue), m1: (string, JsonValue), m2: (string, JsonValue))
    requires forall i :: 0 <= i < |m0.0| ==> IsPlain(m0.0[i])
    requires forall i :: 0 <= i < |m1.0| ==> IsPlain(m1.0[i])
    requires forall i :: 0 <= i < |m2.0| ==> IsPlain(m2.0[i])
    ensures Render(JObject([m0, m1, m2]))
         == "{" + ("\"" + m0.0 + "\":" + Render(m0.1)) + "," + ("\"" + m1.0 + "\":" + Render(m1.1)) + ","
                + ("\"" + m2.0 + "\":" + Render(m2.1)) + "}"
  {
    RenderObjectThreeQuoted(m0, m1, m2);
    MemberText(m0.0, m0.1);
    MemberText(m1.0, m1.1);
    MemberText(m2.0, m2.1);
  }

  /** A one-member object whose name needs no escaping is the braces around `"name":value`. */
  lemma RenderObjectOne(m0: (string, JsonValue))
    requires forall i :: 0 <= i < |m0.0| ==> IsPlain(m0.0[i])
    ensures Render(JObject([m0])) == "{" + ("\"" + m0.0 + "\":" + Render(m0.1)) + "}"
  {
    var ms := [m0];
    var texts := seq(|ms|, i requires 0 <= i < |ms| => Quote(ms[i].0) + ":" + Render(ms[i].1));
    assert texts == [Quote(m0.0) + ":" + Render(m0.1)];
    MemberText(m0.0, m0.1);
  }

  /** The value of a member called `name`, as `JsonNode.get` reads it from an object. */
  function MemberValue(v: JsonValue, name: string): (r: Option<JsonValue>)
    ensures r.Some? <==> v.JObject? && exists i :: 0 <= i < |v.members| && v.members[i].0 == name
  {
    if v.JObject? then Lookup(v.members, name) else None
  }

  function Lookup(members: seq<(string, JsonValue)>, name: string): (r: Option<JsonValue>)
    ensures r.Some? <==> exists i :: 0 <= i < |members| && members[i].0 == name
    ensures r.Some? ==> exists i :: 0 <= i < |members| && members[i] == (name, r.value)
  {
    if |members| == 0 then None
    else if members[0].0 == name then Some(members[0].1)
    else Lookup(members[1..], name)
  }
}

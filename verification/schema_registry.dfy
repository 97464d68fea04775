/** The schema-registry client: subject names, request paths, a read-through cache keyed by
    subject, registration of a schema, and the get-or-register fallback on 404. */
module SchemaRegistry {
  import opened Results
  import opened Json
  import opened Http
  import opened Config
  import Decimal

  /** `subject(topic, ofValue)`: the registry name of a topic's key or value schema. */
  function Subject(topic: string, isValue: bool): (s: string)
    ensures |s| > |topic| && s[..|topic|] == topic
  {
    topic + (if isValue then "-value" else "-key")
  }

  /** Splits a subject into its topic and role. */
  function ParseSubject(s: string): (r: Option<(string, bool)>)
    ensures r.Some? ==> |r.value.0| < |s| && s[..|r.value.0|] == r.value.0
  {
    if |s| >= 6 && s[|s| - 6..] == "-value" then Some((s[..|s| - 6], true))
    else if |s| >= 4 && s[|s| - 4..] == "-key" then Some((s[..|s| - 4], false))
    else None
  }

  /** A subject names exactly one topic and role. */
  lemma ParseSubjectOfSubject(topic: string, isValue: bool)
    ensures ParseSubject(Subject(topic, isValue)) == Some((topic, isValue))
  {
    var s := Subject(topic, isValue);
    if isValue {
      assert s[|s| - 6..] == "-value";
      assert s[..|s| - 6] == topic;
    } else {
      assert s[|s| - 4..] == "-key";
      assert s[..|s| - 4] == topic;
      assert !(|s| >= 6 && s[|s| - 6..] == "-value") by {
        if |s| >= 6 {
          assert s[|s| - 6..][5] == s[|s| - 1] == 'y';
        }
      }
    }
  }

  lemma SubjectInjective(t1: string, v1: bool, t2: string, v2: bool)
    requires Subject(t1, v1) == Subject(t2, v2)
    ensures t1 == t2 && v1 == v2
  {
    ParseSubjectOfSubject(t1, v1);
    ParseSubjectOfSubject(t2, v2);
  }

  /** SchemaRetrieverTest.subject. */
  lemma SubjectExample()
    ensures Subject("bla", true) == "bla-value"
    ensures Subject("bla", false) == "bla-key"
  {
  }

  /** The version part of a lookup path: `latest` for a negative version, else the number. */
  function VersionSegment(version: int): (seg: string)
    ensures version < 0 ==> seg == "latest"
    ensures version >= 0 ==> Decimal.ParseInt(seg) == Some(version)
  {
    if version < 0 then "latest"
    else
      Decimal.ParseIntToString(version);
      Decimal.IntToString(version)
  }

  /** `<base>subjects/<subject>/versions`, where registration posts. */
  function VersionsPath(config: ServerConfig, subject: string): (p: string)
    ensures |p| == |NormalizePath(config.path)| + |subject| + 18 && p[0] == '/'
    ensures p[..|NormalizePath(config.path)|] == NormalizePath(config.path)
    ensures p[|p| - 9..] == "/versions"
  {
    NormalizePath(config.path) + "subjects/" + subject + "/versions"
  }

  /** `<base>subjects/<subject>/versions/<version|latest>`, where lookups go. */
  function VersionPath(config: ServerConfig, subject: string, version: int): (p: string)
    ensures |p| > |VersionsPath(config, subject)| + 1
    ensures p[..|VersionsPath(config, subject)|] == VersionsPath(config, subject)
    ensures p[|VersionsPath(config, subject)|] == '/'
    ensures p[|VersionsPath(config, subject)| + 1..] == VersionSegment(version)
  {
    VersionsPath(config, subject) + "/" + VersionSegment(version)
  }

  /** `ParsedSchemaMetadata`: id and version when known, and the schema text. */
  datatype Metadata = Metadata(id: Option<int>, version: Option<int>, schema: string)

  datatype RegistryError = IoError | Status(code: int) | Malformed

  /** The JSON body of a reply, or why there is none: an I/O failure, a status outside 2xx, or a
      body that is not JSON. */
  function Answer(reply: Reply): (r: Result<JsonValue, RegistryError>)
    ensures r.Ok? <==> Succeeded(reply) && reply.json.Some?
    ensures r == Err(IoError) <==> reply.IoFailure?
    ensures (r.Err? && r.error.Status?) <==> reply.Reply? && !IsSuccess(reply.status)
    ensures r.Err? && r.error.Status? ==> r.error.code == reply.status
  {
    match reply
    case IoFailure => Err(IoError)
    case Reply(status, json) =>
      if !IsSuccess(status) then Err(Status(status))
      else if json.None? then Err(Malformed)
      else Ok(json.value)
  }

  /** An integer member of an object. */
  function IntMember(j: JsonValue, name: string): (r: Option<int>)
    ensures r.Some? ==> exists t :: MemberValue(j, name) == Some(JNumber(t)) && Decimal.ParseInt(t) == r
  {
    match MemberValue(j, name)
    case Some(JNumber(t)) => Decimal.ParseInt(t)
    case _ => None
  }

  /** A string member of an object. */
  function StringMember(j: JsonValue, name: string): (r: Option<string>)
    ensures r.Some? <==> MemberValue(j, name).Some? && MemberValue(j, name).value.JString?
    ensures r.Some? ==> MemberValue(j, name) == Some(JString(r.value))
  {
    match MemberValue(j, name)
    case Some(JString(s)) => Some(s)
    case _ => None
  }

  /** A lookup reply `{"id": …, "version": …, "schema": "…"}`; the schema is the text held by the
      string member. */
  function ParseMetadata(j: JsonValue): (r: Option<Metadata>)
    ensures r.Some? <==> IntMember(j, "id").Some? && IntMember(j, "version").Some? && StringMember(j, "schema").Some?
    ensures r.Some? ==> r.value.id == IntMember(j, "id") && r.value.version == IntMember(j, "version")
    ensures r.Some? ==> Some(r.value.schema) == StringMember(j, "schema")
  {
    match (IntMember(j, "id"), IntMember(j, "version"), StringMember(j, "schema"))
    case (Some(id), Some(version), Some(schema)) => Some(Metadata(Some(id), Some(version), schema))
    case _ => None
  }

  /** `retrieveSchemaMetadata(subject, version)`: always one GET, never cached. */
  function Retrieve(config: ServerConfig, subject: string, version: int, t: Transport)
    : (out: (Result<Metadata, RegistryError>, Transport))
    ensures out.1.sent == t.sent + [Request(Get, VersionPath(config, subject, version), [], NoBody)]
    ensures var reply := Exchange(t, Request(Get, VersionPath(config, subject, version), [], NoBody)).0;
      (out.0.Ok? <==> Answer(reply).Ok? && ParseMetadata(Answer(reply).value).Some?) &&
      (out.0.Ok? ==> (out.0.value.id == IntMember(Answer(reply).value, "id") &&
                      out.0.value.version == IntMember(Answer(reply).value, "version") &&
                      Some(out.0.value.schema) == StringMember(Answer(reply).value, "schema"))) &&
      (Answer(reply).Err? ==> out.0 == Err(Answer(reply).error))
  {
    var (reply, t') := Exchange(t, Request(Get, VersionPath(config, subject, version), [], NoBody));
    match Answer(reply)
    case Err(e) => (Err(e), t')
    case Ok(j) =>
      match ParseMetadata(j)
      case Some(m) => (Ok(m), t')
      case None => (Err(Malformed), t')
  }

  /** A client: where the registry is, and what it has learned so far, keyed by subject. */
  datatype Registry = Registry(config: ServerConfig, cache: map<string, Metadata>)

  /** `getSchemaMetadata(topic, ofValue, version)`: a cached subject costs no request, whatever the
      version asked for; otherwise one lookup, whose success (only) is cached. */
  function GetMetadata(reg: Registry, topic: string, isValue: bool, version: int, t: Transport)
    : (out: (Result<Metadata, RegistryError>, Registry, Transport))
    ensures out.1.config == reg.config
    ensures Subject(topic, isValue) in reg.cache ==>
      out == (Ok(reg.cache[Subject(topic, isValue)]), reg, t)
    ensures Subject(topic, isValue) !in reg.cache ==>
      out.2.sent == t.sent + [Request(Get, VersionPath(reg.config, Subject(topic, isValue), version), [], NoBody)]
    ensures Subject(topic, isValue) !in reg.cache ==>
      (out.0, out.2) == Retrieve(reg.config, Subject(topic, isValue), version, t)
    ensures Subject(topic, isValue) !in reg.cache && out.0.Ok? ==>
      out.1.cache == reg.cache[Subject(topic, isValue) := out.0.value]
    ensures out.0.Err? ==> out.1 == reg
  {
    var subject := Subject(topic, isValue);
    if subject in reg.cache then (Ok(reg.cache[subject]), reg, t)
    else
      var (r, t') := Retrieve(reg.config, subject, version, t);
      match r
      case Ok(m) => (Ok(m), reg.(cache := reg.cache[subject := m]), t')
      case Err(e) => (Err(e), reg, t')
  }

  /** The registration body `{"schema":"<schema text as a JSON string>"}`. */
  function RegistrationBody(schemaText: string): (body: string)
    ensures |body| >= |schemaText| + 13
  {
    "{\"schema\":" + Quote(schemaText) + "}"
  }

  /** The body holds the schema text exactly: its string literal unescapes to the text. */
  lemma RegistrationBodyReadsBack(schemaText: string)
    ensures exists e :: RegistrationBody(schemaText) == "{\"schema\":\"" + e + "\"}" && Unescape(e) == Some(schemaText)
  {
    var e := Escape(schemaText);
    UnescapeEscape(schemaText);
    Enclose("{\"schema\":", "\"", e, "}");
    assert "{\"schema\":" + "\"" == "{\"schema\":\"";
    assert "\"" + "}" == "\"}";
  }

  lemma Enclose(open: string, q: string, e: string, close: string)
    ensures open + (q + e + q) + close == (open + q) + e + (q + close)
  {
  }

  /** `addSchemaMetadata(topic, ofValue, metadata)`: one POST of the schema text to the versions
      path; the reply's id is set on the metadata, which is then cached. */
  function AddMetadata(reg: Registry, topic: string, isValue: bool, m: Metadata, t: Transport)
    : (out: (Result<Metadata, RegistryError>, Registry, Transport))
    ensures out.1.config == reg.config
    ensures out.2.sent == t.sent + [Request(Post, VersionsPath(reg.config, Subject(topic, isValue)), [],
                                             Text(RegistrationBody(m.schema)))]
    ensures out.0.Ok? ==> out.0.value == m.(id := out.0.value.id) && out.0.value.id.Some?
    ensures out.0.Ok? ==> out.1.cache == reg.cache[Subject(topic, isValue) := out.0.value]
    ensures out.0.Err? ==> out.1 == reg
    ensures var reply := Exchange(t, out.2.sent[|t.sent|]).0;
      out.0.Ok? <==> Answer(reply).Ok? && IntMember(Answer(reply).value, "id").Some?
    ensures var reply := Exchange(t, out.2.sent[|t.sent|]).0;
      out.0.Ok? ==> out.0.value.id == IntMember(Answer(reply).value, "id")
  {
    var subject := Subject(topic, isValue);
    var req := Request(Post, VersionsPath(reg.config, subject), [], Text(RegistrationBody(m.schema)));
    var (reply, t') := Exchange(t, req);
    match Answer(reply)
    case Err(e) => (Err(e), reg, t')
    case Ok(j) =>
      match IntMember(j, "id")
      case Some(id) =>
        var m' := m.(id := Some(id));
        (Ok(m'), reg.(cache := reg.cache[subject := m']), t')
      case None => (Err(Malformed), reg, t')
  }

  /** `getOrSetSchemaMetadata(topic, ofValue, schema, version)`: a lookup, and a registration
      only when the registry answers the lookup with 404. */
  function GetOrSet(reg: Registry, topic: string, isValue: bool, schemaText: string, version: int, t: Transport)
    : (out: (Result<Metadata, RegistryError>, Registry, Transport))
    ensures out.1.config == reg.config
    ensures Subject(topic, isValue) in reg.cache ==> out == (Ok(reg.cache[Subject(topic, isValue)]), reg, t)
    ensures Subject(topic, isValue) !in reg.cache ==>
      |t.sent| < |out.2.sent| <= |t.sent| + 2 &&
      out.2.sent[..|t.sent| + 1] == t.sent + [Request(Get, VersionPath(reg.config, Subject(topic, isValue), version), [], NoBody)]
    ensures |out.2.sent| == |t.sent| + 2 <==>
      Subject(topic, isValue) !in reg.cache && GetMetadata(reg, topic, isValue, version, t).0 == Err(Status(404))
    ensures |out.2.sent| == |t.sent| + 2 ==>
      out.2.sent[|t.sent| + 1] == Request(Post, VersionsPath(reg.config, Subject(topic, isValue)), [],
                                          Text(RegistrationBody(schemaText)))
    ensures out.0.Ok? ==> Subject(topic, isValue) in out.1.cache && out.1.cache[Subject(topic, isValue)] == out.0.value
    ensures out.0.Err? ==> out.1 == reg
  {
    var (r, reg', t') := GetMetadata(reg, topic, isValue, version, t);
    if r == Err(Status(404)) then AddMetadata(reg', topic, isValue, Metadata(None, None, schemaText), t')
    else (r, reg', t')
  }

  /** Once a subject is cached, looking it up again, for any version, sends nothing and returns the
      cached metadata. */
  lemma CachedLookupIsFree(reg: Registry, topic: string, isValue: bool, v1: int, v2: int, t: Transport)
    ensures var (r1, reg1, t1) := GetMetadata(reg, topic, isValue, v1, t);
      r1.Ok? ==> GetMetadata(reg1, topic, isValue, v2, t1) == (r1, reg1, t1)
  {
  }

  /** A failed lookup leaves nothing behind: asking again sends a new request. */
  lemma FailedLookupNotCached(reg: Registry, topic: string, isValue: bool, v1: int, v2: int, t: Transport)
    requires Subject(topic, isValue) !in reg.cache
    ensures var (r1, reg1, t1) := GetMetadata(reg, topic, isValue, v1, t);
      r1.Err? ==> reg1 == reg && |GetMetadata(reg1, topic, isValue, v2, t1).2.sent| == |t1.sent| + 1
  {
  }

  /** A subject the registry does not know (404) is registered: two requests, the second a POST of
      the schema to the versions path; the result carries the POST's id and the schema, and asking
      again costs nothing and gives the same id. */
  lemma GetOrSetRegistersOn404(reg: Registry, topic: string, isValue: bool, schemaText: string, version: int,
                               t: Transport, notFound: Reply, registered: Reply, id: int)
    requires Subject(topic, isValue) !in reg.cache
    requires notFound.Reply? && notFound.status == 404
    requires Succeeded(registered) && registered.json.Some? && IntMember(registered.json.value, "id") == Some(id)
    requires |t.replies| >= 2 && t.replies[0] == notFound && t.replies[1] == registered
    ensures var (r, reg', t') := GetOrSet(reg, topic, isValue, schemaText, version, t);
      r == Ok(Metadata(Some(id), None, schemaText)) &&
      |t'.sent| == |t.sent| + 2 && t'.replies == t.replies[2..] &&
      t'.sent[|t.sent| + 1] == Request(Post, VersionsPath(reg.config, Subject(topic, isValue)), [],
                                       Text(RegistrationBody(schemaText))) &&
      GetOrSet(reg', topic, isValue, schemaText, version, t') == (r, reg', t')
  {
    var (r1, reg1, t1) := GetMetadata(reg, topic, isValue, version, t);
    assert r1 == Err(Status(404));
    assert t1.replies == t.replies[1..] && t1.replies[0] == registered;
    assert t1.replies[1..] == t.replies[2..];
  }

  /** A subject the registry knows needs one GET and no registration. */
  lemma GetOrSetFound(reg: Registry, topic: string, isValue: bool, schemaText: string, version: int,
                      t: Transport, found: Reply)
    requires Subject(topic, isValue) !in reg.cache
    requires Succeeded(found) && found.json.Some? && ParseMetadata(found.json.value).Some?
    requires |t.replies| > 0 && t.replies[0] == found
    ensures var (r, reg', t') := GetOrSet(reg, topic, isValue, schemaText, version, t);
      r == Ok(ParseMetadata(found.json.value).value) &&
      t'.sent == t.sent + [Request(Get, VersionPath(reg.config, Subject(topic, isValue), version), [], NoBody)]
  {
  }

  /** Any failure other than 404 is passed on, without a registration. */
  lemma GetOrSetOtherFailure(reg: Registry, topic: string, isValue: bool, schemaText: string, version: int,
                             t: Transport)
    ensures var (r1, _, t1) := GetMetadata(reg, topic, isValue, version, t);
      r1.Err? && r1 != Err(Status(404)) ==>
      GetOrSet(reg, topic, isValue, schemaText, version, t).0 == r1 &&
      GetOrSet(reg, topic, isValue, schemaText, version, t).2 == t1
  {
  }

  /** The registry of SchemaRetrieverTest: path `base` on a local server. */
  const TestConfig: ServerConfig := ServerConfig("http", "localhost", 8080, "base")

  lemma TestVersionsPath()
    ensures VersionsPath(TestConfig, "bla-value") == "/base/subjects/bla-value/versions"
  {
    assert NormalizePath("base") == "/base/";
    assert "/base/" + "subjects/" + "bla-value" + "/versions" == "/base/subjects/bla-value/versions";
  }

  /** SchemaRetrieverTest.retrieveSchemaMetadata and retrieveSchemaMetadataVersion: version -1
      asks for `latest`, version 2 for `2`. */
  lemma TestVersionPaths()
    ensures VersionPath(TestConfig, "bla-value", -1) == "/base/subjects/bla-value/versions/latest"
    ensures VersionPath(TestConfig, "bla-value", 2) == "/base/subjects/bla-value/versions/2"
  {
    TestVersionsPath();
    assert Decimal.IntToString(2) == "2";
    assert "/base/subjects/bla-value/versions" + "/" + "latest" == "/base/subjects/bla-value/versions/latest";
    assert "/base/subjects/bla-value/versions" + "/" + "2" == "/base/subjects/bla-value/versions/2";
  }

  /** The lookup reply of SchemaRetrieverTest: `{"id":10,"version":2,"schema":"\"string\""}`. */
  const LookupReply: JsonValue :=
    JObject([("id", JNumber("10")), ("version", JNumber("2")), ("schema", JString("\"string\""))])

  lemma LookupReplyMetadata()
    ensures ParseMetadata(LookupReply) == Some(Metadata(Some(10), Some(2), "\"string\""))
  {
    assert Decimal.ParseInt("10") == Some(10) by {
      assert Decimal.IntToString(10) == "10";
      Decimal.ParseIntToString(10);
    }
    assert Decimal.ParseInt("2") == Some(2) by {
      assert Decimal.IntToString(2) == "2";
      Decimal.ParseIntToString(2);
    }
    assert IntMember(LookupReply, "id") == Some(10);
    assert IntMember(LookupReply, "version") == Some(2);
    assert StringMember(LookupReply, "schema") == Some("\"string\"");
  }

  /** SchemaRetrieverTest.retrieveSchemaMetadata and retrieveSchemaMetadataVersion: one GET to the
      version path, and the metadata of the reply: id 10, version 2, schema `"string"`. */
  lemma RetrieveScenario(version: int)
    ensures Retrieve(TestConfig, "bla-value", version, Transport([Reply(200, Some(LookupReply))], []))
         == (Ok(Metadata(Some(10), Some(2), "\"string\"")),
             Transport([], [Request(Get, VersionPath(TestConfig, "bla-value", version), [], NoBody)]))
  {
    var reply := Reply(200, Some(LookupReply));
    var req := Request(Get, VersionPath(TestConfig, "bla-value", version), [], NoBody);
    var t0 := Transport([reply], []);
    var ex := Exchange(t0, req);
    assert ex.1.sent == [] + [req] == [req];
    assert ex.1.replies == t0.replies[1..] == [];
    assert ex == (reply, Transport([], [req]));
    assert Answer(reply) == Ok(LookupReply);
    LookupReplyMetadata();
  }

  /** SchemaRetrieverTest.addSchemaMetadata: one POST of the schema, whose reply `{"id":10}` sets
      id 10 and keeps the schema; the subject is then cached. */
  lemma AddMetadataScenario(schemaText: string)
    ensures var t0 := Transport([Reply(200, Some(JObject([("id", JNumber("10"))])))], []);
      var (r, reg, t) := AddMetadata(Registry(TestConfig, map[]), "bla", true, Metadata(None, None, schemaText), t0);
      r == Ok(Metadata(Some(10), None, schemaText)) && |t.sent| == 1 &&
      t.sent[0].body == Text(RegistrationBody(schemaText)) &&
      reg.cache == map[Subject("bla", true) := r.value]
  {
    RegisteredId();
  }

  /** SchemaRetrieverTest.getOrSetSchemaMetadataGet: the registry knows the subject, so one GET
      for version 2 and no registration; asking again sends nothing and gives the same id. */
  lemma GetOrSetGetScenario(schemaText: string)
    ensures var t0 := Transport([Reply(200, Some(LookupReply))], []);
      var (r, reg, t) := GetOrSet(Registry(TestConfig, map[]), "bla", true, schemaText, 2, t0);
      r == Ok(Metadata(Some(10), Some(2), "\"string\"")) &&
      t.sent == [Request(Get, VersionPath(TestConfig, Subject("bla", true), 2), [], NoBody)] &&
      GetOrSet(reg, "bla", true, schemaText, 2, t) == (r, reg, t)
  {
    LookupReplyMetadata();
    var t0 := Transport([Reply(200, Some(LookupReply))], []);
    GetOrSetFound(Registry(TestConfig, map[]), "bla", true, schemaText, 2, t0, t0.replies[0]);
  }

  /** The registry's state after the first lookup of SchemaRetrieverTest.getSchemaMetadata. */
  lemma FirstLookup()
    ensures var t0 := Transport([Reply(200, Some(LookupReply)), Reply(500, None)], []);
      var (r1, reg1, t1) := GetMetadata(Registry(TestConfig, map[]), "bla", true, 2, t0);
      r1 == Ok(Metadata(Some(10), Some(2), "\"string\"")) &&
      reg1 == Registry(TestConfig, map["bla-value" := r1.value]) &&
      t1 == Transport([Reply(500, None)], [Request(Get, "/base/subjects/bla-value/versions/2", [], NoBody)])
  {
    LookupReplyMetadata();
    TestVersionPaths();
    SubjectExample();
  }

  /** SchemaRetrieverTest.getSchemaMetadata: the first lookup sends one GET and yields id 10 and
      version 2; the second, for version -1, sends nothing; the key subject is not cached, so its
      lookup sends a request and the 500 reply is an error. */
  lemma GetSchemaMetadataScenario()
    ensures var reg0 := Registry(TestConfig, map[]);
      var t0 := Transport([Reply(200, Some(LookupReply)), Reply(500, None)], []);
      var (r1, reg1, t1) := GetMetadata(reg0, "bla", true, 2, t0);
      var (r2, reg2, t2) := GetMetadata(reg1, "bla", true, -1, t1);
      var (r3, reg3, t3) := GetMetadata(reg2, "bla", false, 2, t2);
      r1 == Ok(Metadata(Some(10), Some(2), "\"string\"")) &&
      t1.sent == [Request(Get, "/base/subjects/bla-value/versions/2", [], NoBody)] &&
      r2 == r1 && t2 == t1 &&
      r3 == Err(Status(500)) && |t3.sent| == 2 && reg3 == reg2
  {
    FirstLookup();
    var t0 := Transport([Reply(200, Some(LookupReply)), Reply(500, None)], []);
    var (r1, reg1, t1) := GetMetadata(Registry(TestConfig, map[]), "bla", true, 2, t0);
    LaterLookups(reg1, t1, r1.value);
  }

  /** After the value subject is cached: its lookup is free at any version, and the key subject's
      lookup is one request whose 500 reply is an error that caches nothing. */
  lemma LaterLookups(reg: Registry, t: Transport, m: Metadata)
    requires reg.cache == map["bla-value" := m] && t.replies == [Reply(500, None)]
    ensures GetMetadata(reg, "bla", true, -1, t) == (Ok(m), reg, t)
    ensures var (r, reg', t') := GetMetadata(reg, "bla", false, 2, t);
      r == Err(Status(500)) && |t'.sent| == |t.sent| + 1 && reg' == reg
  {
    SubjectExample();
    assert "bla-key" !in reg.cache;
  }

  lemma EscapeStringSchema(schemaText: string)
    requires schemaText == "\"string\""
    ensures Escape(schemaText) == "\\\"string\\\""
  {
    EscapeQuotedPlain(schemaText[1..7]);
    assert schemaText == "\"" + schemaText[1..7] + "\"";
  }

  lemma EscapeQuotedPlain(w: string)
    requires forall i :: 0 <= i < |w| ==> IsPlain(w[i])
    ensures Escape("\"" + w + "\"") == "\\\"" + w + "\\\""
  {
    EscapeQuoted(w);
    QuotePlain(w);
  }

  /** The body posted for the schema `"string"`: `{"schema":"\"string\""}`. */
  lemma StringSchemaBody(schemaText: string)
    requires schemaText == "\"string\""
    ensures RegistrationBody(schemaText) == "{\"schema\":\"\\\"string\\\"\"}"
  {
    EscapeStringSchema(schemaText);
    var e := "\\\"string\\\"";
    assert "{\"schema\":" + ("\"" + e + "\"") + "}" == "{\"schema\":\"\\\"string\\\"\"}";
  }

  lemma RegisteredId()
    ensures IntMember(JObject([("id", JNumber("10"))]), "id") == Some(10)
  {
    assert Decimal.IntToString(10) == "10";
    Decimal.ParseIntToString(10);
  }

  /** The registry of SchemaRetrieverTest.getOrSetSchemaMetadataSet: a 404 for the lookup, then
      `{"id":10}` for the registration. */
  const SetReplies: Transport := Transport([Reply(404, None), Reply(200, Some(JObject([("id", JNumber("10"))])))], [])

  /** SchemaRetrieverTest.getOrSetSchemaMetadataSet: a 404, then `{"id":10}`; two requests and
      id 10, with no version, whatever the schema text (the test's is `"string"`). */
  lemma GetOrSetScenario(schemaText: string)
    ensures var (r, reg, t) := GetOrSet(Registry(TestConfig, map[]), "bla", true, schemaText, -1, SetReplies);
      r == Ok(Metadata(Some(10), None, schemaText)) && |t.sent| == 2 &&
      t.sent[1] == Request(Post, VersionsPath(TestConfig, Subject("bla", true)), [], Text(RegistrationBody(schemaText))) &&
      GetOrSet(reg, "bla", true, schemaText, -1, t) == (r, reg, t)
  {
    RegisteredId();
    GetOrSetRegistersOn404(Registry(TestConfig, map[]), "bla", true, schemaText, -1,
      SetReplies, SetReplies.replies[0], SetReplies.replies[1], 10);
  }

  /** The second request of that exchange is a POST to `/base/subjects/bla-value/versions` of the
      escaped schema. */
  lemma GetOrSetPostScenario()
    ensures Request(Post, VersionsPath(TestConfig, Subject("bla", true)), [], Text(RegistrationBody("\"string\"")))
         == Request(Post, "/base/subjects/bla-value/versions", [], Text("{\"schema\":\"\\\"string\\\"\"}"))
  {
    SubjectExample();
    TestVersionsPath();
    StringSchemaBody("\"string\"");
  }
}

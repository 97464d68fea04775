/** `RestSender`: sends batches of records of one topic to a REST proxy as one JSON POST each,
    after resolving the key and value schema ids with the registry client, and keeps track of
    whether the server is reachable. */
module RestSender {
  import opened Results
  import opened Json
  import opened Http
  import opened Config
  import opened AvroSchema
  import AvroJson
  import SchemaRegistry
  import Decimal

  /** What the sender believes about the server: not yet probed, reachable, or not reachable. */
  datatype Health = Unknown | Connected | Disconnected

  /** The sender's state: the server, the registry client it borrows, the extra headers and the
      compression flag set by its callers, and the connection health. */
  datatype Sender = Sender(server: ServerConfig, registry: SchemaRegistry.Registry,
                           headers: seq<(string, string)>, compression: bool, health: Health)

  /** `AvroTopic`: a topic name with the schemas of its keys and values. */
  datatype Topic = Topic(name: string, keySchema: Schema, valueSchema: Schema)

  /** `Record`: a sequence number with a key and a value. */
  datatype Record = Record(seqNumber: int, key: seq<Datum>, value: seq<Datum>)

  /** One call `getOrSetSchemaMetadata(topic, ofValue, schema, version)` on the registry client. */
  datatype RegistryCall = RegistryCall(topic: string, isValue: bool, schemaText: string, version: int)

  /** The two connections: to the REST proxy and to the schema registry. */
  datatype Net = Net(server: Transport, registry: Transport)

  datatype SendError =
    | LookupFailed(registryError: SchemaRegistry.RegistryError)
    | MissingId
    | EncodingFailed(position: nat, isValue: bool, encodeError: EncodeError)
    | Rejected(status: int)
    | ConnectionFailed
    | BadAcknowledgement

  /** A batch ends with nothing sent (it was empty) or with the offset the proxy assigned. */
  datatype Delivery = NothingToSend | Acknowledged(offset: int)

  datatype Outcome = Outcome(result: Result<Delivery, SendError>, sender: Sender, net: Net, lookups: seq<RegistryCall>)

  /** The base path of the server: its path with a leading and a trailing slash. */
  function Root(server: ServerConfig): (p: string)
    ensures IsSlashed(p)
  {
    NormalizePath(server.path)
  }

  /** The liveness probe `HEAD /`, relative to the server's base path. */
  function Probe(server: ServerConfig): Request {
    Request(Head, Root(server), [], NoBody)
  }

  /** `resetConnection()`: always one probe; the health and the answer follow its reply. */
  function ResetConnection(s: Sender, t: Transport): (out: (bool, Sender, Transport))
    ensures out.2.sent == t.sent + [Probe(s.server)]
    ensures out.0 <==> |t.replies| > 0 && Succeeded(t.replies[0])
    ensures out.0 <==> out.1.health == Connected
    ensures out.1.health != Unknown
    ensures out.1 == s.(health := out.1.health)
  {
    var (reply, t') := Exchange(t, Probe(s.server));
    if Succeeded(reply) then (true, s.(health := Connected), t')
    else (false, s.(health := Disconnected), t')
  }

  /** `isConnected()`: the known health without a request; only an unprobed server is probed. */
  function IsConnected(s: Sender, t: Transport): (out: (bool, Sender, Transport))
    ensures s.health != Unknown ==> out == (s.health == Connected, s, t)
    ensures s.health == Unknown ==> out == ResetConnection(s, t)
    ensures out.0 <==> out.1.health == Connected
    ensures out.1.health != Unknown
  {
    match s.health
    case Connected => (true, s, t)
    case Disconnected => (false, s, t)
    case Unknown => ResetConnection(s, t)
  }

  /** Asking twice in a row gives the same answer, and the second time costs no request. */
  lemma IsConnectedStable(s: Sender, t: Transport)
    ensures var (b1, s1, t1) := IsConnected(s, t);
      IsConnected(s1, t1) == (b1, s1, t1)
  {
  }

  function KeyLookup(topic: Topic): RegistryCall {
    RegistryCall(topic.name, false, topic.keySchema.text, -1)
  }

  function ValueLookup(topic: Topic): RegistryCall {
    RegistryCall(topic.name, true, topic.valueSchema.text, -1)
  }

  /** The registry client and its connection after making the given calls in order. */
  function Replay(reg: SchemaRegistry.Registry, rt: Transport, calls: seq<RegistryCall>)
    : (out: (SchemaRegistry.Registry, Transport))
    ensures out.0.config == reg.config
    decreases |calls|
  {
    if |calls| == 0 then (reg, rt)
    else
      var c := calls[0];
      var (_, reg', rt') := SchemaRegistry.GetOrSet(reg, c.topic, c.isValue, c.schemaText, c.version, rt);
      Replay(reg', rt', calls[1..])
  }

  datatype Resolution = Resolution(ids: Result<(int, int), SendError>, registry: SchemaRegistry.Registry,
                                   net: Transport, lookups: seq<RegistryCall>)

  /** Step 1 of a send: the key schema id, then the value schema id, each looked up (or registered)
      at the latest version. A failed key lookup stops before the value lookup. */
  function Resolve(reg: SchemaRegistry.Registry, topic: Topic, rt: Transport): (out: Resolution)
    ensures 1 <= |out.lookups| <= 2 && out.lookups[0] == KeyLookup(topic)
    ensures out.ids.Ok? ==> out.lookups == [KeyLookup(topic), ValueLookup(topic)]
    ensures out.ids.Ok? ==>
      var key := SchemaRegistry.GetOrSet(reg, topic.name, false, topic.keySchema.text, -1, rt);
      key.0.Ok? && key.0.value.id == Some(out.ids.value.0)
    ensures out.ids.Ok? ==>
      var key := SchemaRegistry.GetOrSet(reg, topic.name, false, topic.keySchema.text, -1, rt);
      var value := SchemaRegistry.GetOrSet(key.1, topic.name, true, topic.valueSchema.text, -1, key.2);
      value.0.Ok? && value.0.value.id == Some(out.ids.value.1)
    ensures out.registry.config == reg.config
  {
    var (kr, reg1, rt1) := SchemaRegistry.GetOrSet(reg, topic.name, false, topic.keySchema.text, -1, rt);
    match kr
    case Err(e) => Resolution(Err(LookupFailed(e)), reg1, rt1, [KeyLookup(topic)])
    case Ok(km) =>
      var (vr, reg2, rt2) := SchemaRegistry.GetOrSet(reg1, topic.name, true, topic.valueSchema.text, -1, rt1);
      var calls := [KeyLookup(topic), ValueLookup(topic)];
      match vr
      case Err(e) => Resolution(Err(LookupFailed(e)), reg2, rt2, calls)
      case Ok(vm) =>
        if km.id.None? || vm.id.None? then Resolution(Err(MissingId), reg2, rt2, calls)
        else Resolution(Ok((km.id.value, vm.id.value)), reg2, rt2, calls)
  }

  /** The calls reported are exactly the registry traffic of the step. */
  lemma ResolveReplays(reg: SchemaRegistry.Registry, topic: Topic, rt: Transport)
    ensures var out := Resolve(reg, topic, rt);
      (out.registry, out.net) == Replay(reg, rt, out.lookups)
  {
    if SchemaRegistry.GetOrSet(reg, topic.name, false, topic.keySchema.text, -1, rt).0.Err? {
      ResolveKeyFailed(reg, topic, rt);
    } else {
      ResolveKeyFound(reg, topic, rt);
    }
  }

  lemma ResolveKeyFailed(reg: SchemaRegistry.Registry, topic: Topic, rt: Transport)
    requires SchemaRegistry.GetOrSet(reg, topic.name, false, topic.keySchema.text, -1, rt).0.Err?
    ensures var out := Resolve(reg, topic, rt);
      (out.registry, out.net) == Replay(reg, rt, out.lookups)
  {
    assert Resolve(reg, topic, rt).lookups == [KeyLookup(topic)];
    ReplayOne(reg, rt, KeyLookup(topic));
  }

  lemma ResolveKeyFound(reg: SchemaRegistry.Registry, topic: Topic, rt: Transport)
    requires SchemaRegistry.GetOrSet(reg, topic.name, false, topic.keySchema.text, -1, rt).0.Ok?
    ensures var out := Resolve(reg, topic, rt);
      (out.registry, out.net) == Replay(reg, rt, out.lookups)
  {
    var (_, reg1, rt1) := SchemaRegistry.GetOrSet(reg, topic.name, false, topic.keySchema.text, -1, rt);
    assert Resolve(reg, topic, rt).lookups == [KeyLookup(topic), ValueLookup(topic)];
    ReplayTwo(reg, rt, KeyLookup(topic), ValueLookup(topic));
    ReplayOne(reg1, rt1, ValueLookup(topic));
  }

  lemma ReplayOne(reg: SchemaRegistry.Registry, rt: Transport, c: RegistryCall)
    ensures var (_, reg1, rt1) := SchemaRegistry.GetOrSet(reg, c.topic, c.isValue, c.schemaText, c.version, rt);
      Replay(reg, rt, [c]) == (reg1, rt1)
  {
    assert [c][1..] == [];
  }

  lemma ReplayTwo(reg: SchemaRegistry.Registry, rt: Transport, c: RegistryCall, d: RegistryCall)
    ensures var (_, reg1, rt1) := SchemaRegistry.GetOrSet(reg, c.topic, c.isValue, c.schemaText, c.version, rt);
      Replay(reg, rt, [c, d]) == Replay(reg1, rt1, [d])
  {
    assert [c, d][1..] == [d];
  }

  /** Once both subjects are cached with their ids, resolving costs no registry request. */
  lemma ResolveWarm(reg: SchemaRegistry.Registry, topic: Topic, rt: Transport, kid: int, vid: int)
    requires SchemaRegistry.Subject(topic.name, false) in reg.cache
    requires SchemaRegistry.Subject(topic.name, true) in reg.cache
    requires reg.cache[SchemaRegistry.Subject(topic.name, false)].id == Some(kid)
    requires reg.cache[SchemaRegistry.Subject(topic.name, true)].id == Some(vid)
    ensures Resolve(reg, topic, rt) == Resolution(Ok((kid, vid)), reg, rt, [KeyLookup(topic), ValueLookup(topic)])
  {
  }

  /** The first record whose key or value does not fit its schema, key before value. */
  function FirstBadRecord(topic: Topic, records: seq<Record>): (r: Option<SendError>)
    ensures r.None? <==> forall i :: 0 <= i < |records| ==>
      Conforms(topic.keySchema, records[i].key) && Conforms(topic.valueSchema, records[i].value)
    ensures r.Some? ==> r.value.EncodingFailed? && r.value.position < |records|
    ensures r.Some? ==> forall i :: 0 <= i < r.value.position ==>
      Conforms(topic.keySchema, records[i].key) && Conforms(topic.valueSchema, records[i].value)
    ensures r.Some? && r.value.isValue ==> Conforms(topic.keySchema, records[r.value.position].key)
    ensures r.Some? && !r.value.isValue ==>
      Check(topic.keySchema, records[r.value.position].key) == Some(r.value.encodeError)
    ensures r.Some? && r.value.isValue ==>
      Check(topic.valueSchema, records[r.value.position].value) == Some(r.value.encodeError)
  {
    if |records| == 0 then None
    else match (Check(topic.keySchema, records[0].key), Check(topic.valueSchema, records[0].value))
      case (Some(e), _) => Some(EncodingFailed(0, false, e))
      case (None, Some(e)) => Some(EncodingFailed(0, true, e))
      case (None, None) =>
        match FirstBadRecord(topic, records[1..])
        case None => None
        case Some(err) => Some(err.(position := err.position + 1))
  }

  predicate AllConform(topic: Topic, records: seq<Record>) {
    forall i :: 0 <= i < |records| ==>
      Conforms(topic.keySchema, records[i].key) && Conforms(topic.valueSchema, records[i].value)
  }

  /** `{"key": …, "value": …}` of one record. */
  function RecordJson(topic: Topic, r: Record, fmt: AvroJson.RealFormat): JsonValue
    requires Conforms(topic.keySchema, r.key) && Conforms(topic.valueSchema, r.value)
  {
    JObject([("key", AvroJson.RecordToJson(topic.keySchema, r.key, fmt)),
             ("value", AvroJson.RecordToJson(topic.valueSchema, r.value, fmt))])
  }

  function RecordsJson(topic: Topic, records: seq<Record>, fmt: AvroJson.RealFormat): (items: seq<JsonValue>)
    requires AllConform(topic, records)
    ensures |items| == |records|
  {
    if |records| == 0 then []
    else [RecordJson(topic, records[0], fmt)] + RecordsJson(topic, records[1..], fmt)
  }

  /** The batch payload `{"key_schema_id": …, "value_schema_id": …, "records": [{key, value}, …]}`. */
  function Payload(keyId: int, valueId: int, topic: Topic, records: seq<Record>, fmt: AvroJson.RealFormat)
    : (p: JsonValue)
    requires AllConform(topic, records)
  {
    JObject([("key_schema_id", JNumber(Decimal.IntToString(keyId))),
             ("value_schema_id", JNumber(Decimal.IntToString(valueId))),
             ("records", JArray(RecordsJson(topic, records, fmt)))])
  }

  /** Key and value of one element of `records`, read back with the topic's schemas. */
  function ReadRecord(topic: Topic, item: JsonValue, fmt: AvroJson.RealFormat): Option<(seq<Datum>, seq<Datum>)> {
    match (MemberValue(item, "key"), MemberValue(item, "value"))
    case (Some(k), Some(v)) =>
      (match (AvroJson.RecordFromJson(topic.keySchema, k, fmt), AvroJson.RecordFromJson(topic.valueSchema, v, fmt))
       case (Some(key), Some(value)) => Some((key, value))
       case _ => None)
    case _ => None
  }

  function ReadRecords(topic: Topic, items: seq<JsonValue>, fmt: AvroJson.RealFormat)
    : Option<seq<(seq<Datum>, seq<Datum>)>>
  {
    if |items| == 0 then Some([])
    else match (ReadRecord(topic, items[0], fmt), ReadRecords(topic, items[1..], fmt))
      case (Some(r), Some(rest)) => Some([r] + rest)
      case _ => None
  }

  /** What the proxy reads from a payload: both schema ids and the key and value of every record. */
  function ReadPayload(topic: Topic, p: JsonValue, fmt: AvroJson.RealFormat)
    : Option<(int, int, seq<(seq<Datum>, seq<Datum>)>)>
  {
    match (SchemaRegistry.IntMember(p, "key_schema_id"), SchemaRegistry.IntMember(p, "value_schema_id"),
           MemberValue(p, "records"))
    case (Some(k), Some(v), Some(JArray(items))) =>
      (match ReadRecords(topic, items, fmt)
       case Some(rs) => Some((k, v, rs))
       case None => None)
    case _ => None
  }

  /** The keys and values of a batch, in order. */
  function Contents(records: seq<Record>): (c: seq<(seq<Datum>, seq<Datum>)>)
    ensures |c| == |records|
    ensures forall i :: 0 <= i < |records| ==> c[i] == (records[i].key, records[i].value)
  {
    if |records| == 0 then [] else [(records[0].key, records[0].value)] + Contents(records[1..])
  }

  lemma RecordJsonReadsBack(topic: Topic, r: Record, fmt: AvroJson.RealFormat)
    requires Conforms(topic.keySchema, r.key) && Conforms(topic.valueSchema, r.value)
    requires AvroJson.Faithful(fmt)
    ensures ReadRecord(topic, RecordJson(topic, r, fmt), fmt) == Some((r.key, r.value))
  {
    AvroJson.RecordRoundTrip(topic.keySchema, r.key, fmt);
    AvroJson.RecordRoundTrip(topic.valueSchema, r.value, fmt);
    KeyValueMembers(AvroJson.RecordToJson(topic.keySchema, r.key, fmt), AvroJson.RecordToJson(topic.valueSchema, r.value, fmt));
  }

  lemma KeyValueMembers(k: JsonValue, v: JsonValue)
    ensures MemberValue(JObject([("key", k), ("value", v)]), "key") == Some(k)
    ensures MemberValue(JObject([("key", k), ("value", v)]), "value") == Some(v)
  {
    var ms := [("key", k), ("value", v)];
    assert "key"[0] != "value"[0];
    assert ms[1..] == [("value", v)];
    assert Lookup(ms, "value") == Lookup(ms[1..], "value");
  }

  lemma {:induction false} RecordsJsonReadBack(topic: Topic, records: seq<Record>, fmt: AvroJson.RealFormat)
    requires AllConform(topic, records) && AvroJson.Faithful(fmt)
    ensures ReadRecords(topic, RecordsJson(topic, records, fmt), fmt) == Some(Contents(records))
    decreases |records|
  {
    if |records| > 0 {
      var items := RecordsJson(topic, records, fmt);
      assert Conforms(topic.keySchema, records[0].key) && Conforms(topic.valueSchema, records[0].value);
      AllConformTail(topic, records);
      RecordJsonReadsBack(topic, records[0], fmt);
      RecordsJsonReadBack(topic, records[1..], fmt);
      assert items[0] == RecordJson(topic, records[0], fmt);
      assert items[1..] == RecordsJson(topic, records[1..], fmt);
      assert Contents(records) == [(records[0].key, records[0].value)] + Contents(records[1..]);
    }
  }

  lemma AllConformTail(topic: Topic, records: seq<Record>)
    requires |records| > 0 && AllConform(topic, records)
    ensures AllConform(topic, records[1..])
  {
    assert forall i :: 0 <= i < |records| - 1 ==> records[1..][i] == records[i + 1];
  }

  lemma PayloadMembers(k: JsonValue, v: JsonValue, rs: JsonValue)
    ensures var p := JObject([("key_schema_id", k), ("value_schema_id", v), ("records", rs)]);
      MemberValue(p, "key_schema_id") == Some(k) && MemberValue(p, "value_schema_id") == Some(v) &&
      MemberValue(p, "records") == Some(rs)
  {
    var ms := [("key_schema_id", k), ("value_schema_id", v), ("records", rs)];
    assert "key_schema_id"[0] != "value_schema_id"[0];
    assert "key_schema_id"[0] != "records"[0] && "value_schema_id"[0] != "records"[0];
    assert ms[1..] == [("value_schema_id", v), ("records", rs)];
    assert ms[1..][1..] == [("records", rs)];
    assert Lookup(ms, "records") == Lookup(ms[1..], "records") == Lookup(ms[1..][1..], "records");
    assert Lookup(ms, "value_schema_id") == Lookup(ms[1..], "value_schema_id");
  }

  /** The proxy reads back from the payload the two schema ids and every record, in order. */
  lemma PayloadReadsBack(keyId: int, valueId: int, topic: Topic, records: seq<Record>, fmt: AvroJson.RealFormat)
    requires AllConform(topic, records) && AvroJson.Faithful(fmt)
    ensures ReadPayload(topic, Payload(keyId, valueId, topic, records, fmt), fmt) == Some((keyId, valueId, Contents(records)))
  {
    var p := Payload(keyId, valueId, topic, records, fmt);
    Decimal.ParseIntToString(keyId);
    Decimal.ParseIntToString(valueId);
    PayloadMembers(JNumber(Decimal.IntToString(keyId)), JNumber(Decimal.IntToString(valueId)),
                   JArray(RecordsJson(topic, records, fmt)));
    RecordsJsonReadBack(topic, records, fmt);
  }

  /** `/topics/<name>` under the server's base path. */
  function TopicPath(server: ServerConfig, name: string): (p: string)
    ensures |p| == |Root(server)| + 7 + |name|
    ensures p[..|Root(server)|] == Root(server) && p[|Root(server)| + 7..] == name
  {
    Root(server) + "topics/" + name
  }

  /** The POST of a payload: the configured headers in order, and the body as text or, when
      compression is on, gzip-compressed with `Content-Encoding: gzip` added. */
  function PostRequest(s: Sender, topicName: string, payload: JsonValue): (req: Request)
    ensures req.verb == Post && req.path == TopicPath(s.server, topicName)
    ensures PlainText(req.body) == Render(payload)
    ensures s.compression <==> req.body.Gzip?
  {
    var text := Render(payload);
    if s.compression then
      Request(Post, TopicPath(s.server, topicName), s.headers + [("Content-Encoding", "gzip")], Gzip(text))
    else Request(Post, TopicPath(s.server, topicName), s.headers, Text(text))
  }

  /** The text a body carries, once decompressed. */
  function PlainText(b: Body): string {
    match b
    case NoBody => ""
    case Text(text) => text
    case Gzip(plain) => plain
  }

  /** `Headers.values(name)`: every value given under a name, in insertion order. */
  function HeaderValues(headers: seq<(string, string)>, name: string): (vs: seq<string>)
    ensures |vs| <= |headers|
  {
    if |headers| == 0 then []
    else (if headers[0].0 == name then [headers[0].1] else []) + HeaderValues(headers[1..], name)
  }

  lemma {:induction false} HeaderValuesAppend(a: seq<(string, string)>, b: seq<(string, string)>, name: string)
    ensures HeaderValues(a + b, name) == HeaderValues(a, name) + HeaderValues(b, name)
    decreases |a|
  {
    if |a| > 0 {
      assert (a + b)[0] == a[0] && (a + b)[1..] == a[1..] + b;
      HeaderValuesAppend(a[1..], b, name);
    } else {
      assert a + b == b;
    }
  }

  /** Every configured header reaches the proxy with all its values in order; compression only
      adds `Content-Encoding: gzip` after them and does not change the text sent. */
  lemma PostHeaders(s: Sender, topicName: string, payload: JsonValue, name: string)
    ensures var req := PostRequest(s, topicName, payload);
      (name != "Content-Encoding" ==> HeaderValues(req.headers, name) == HeaderValues(s.headers, name)) &&
      (s.compression ==> HeaderValues(req.headers, "Content-Encoding") == HeaderValues(s.headers, "Content-Encoding") + ["gzip"]) &&
      (!s.compression ==> req.headers == s.headers)
  {
    if s.compression {
      var extra := [("Content-Encoding", "gzip")];
      HeaderValuesAppend(s.headers, extra, name);
      HeaderValuesAppend(s.headers, extra, "Content-Encoding");
      assert extra[1..] == [];
    }
  }

  /** The same batch sent with and without compression reaches the same path with the same text. */
  lemma CompressionKeepsPayload(s: Sender, topicName: string, payload: JsonValue)
    ensures var zipped := PostRequest(s.(compression := true), topicName, payload);
      var plain := PostRequest(s.(compression := false), topicName, payload);
      zipped.path == plain.path && PlainText(zipped.body) == PlainText(plain.body) &&
      zipped.headers == plain.headers + [("Content-Encoding", "gzip")]
  {
  }

  /** The proxy's answer to a POST: its offset on 2xx, and the health it shows. */
  function Acknowledge(reply: Reply): (out: (Result<Delivery, SendError>, Health))
    ensures out.1 == Connected <==> Succeeded(reply)
    ensures out.1 != Unknown
    ensures out.0.Ok? <==> Succeeded(reply) && reply.json.Some? && SchemaRegistry.IntMember(reply.json.value, "offset").Some?
    ensures out.0.Ok? ==> out.0.value == Acknowledged(SchemaRegistry.IntMember(reply.json.value, "offset").value)
    ensures reply.Reply? && !IsSuccess(reply.status) ==> out.0 == Err(Rejected(reply.status))
  {
    match reply
    case IoFailure => (Err(ConnectionFailed), Disconnected)
    case Reply(status, json) =>
      if !IsSuccess(status) then (Err(Rejected(status)), Disconnected)
      else if json.None? then (Err(BadAcknowledgement), Connected)
      else match SchemaRegistry.IntMember(json.value, "offset")
        case Some(offset) => (Ok(Acknowledged(offset)), Connected)
        case None => (Err(BadAcknowledgement), Connected)
  }

  /** Steps 2 to 6 of a send: every record is checked against the schemas before anything is
      written; then one POST of the whole batch, whose reply decides the result and the health. */
  function Transmit(s: Sender, topic: Topic, records: seq<Record>, keyId: int, valueId: int,
                    fmt: AvroJson.RealFormat, t: Transport): (out: (Result<Delivery, SendError>, Health, Transport))
    ensures !AllConform(topic, records) ==> out == (Err(FirstBadRecord(topic, records).value), s.health, t)
    ensures AllConform(topic, records) ==>
      out.2.sent == t.sent + [PostRequest(s, topic.name, Payload(keyId, valueId, topic, records, fmt))]
    ensures AllConform(topic, records) ==>
      (out.0, out.1) == Acknowledge(if |t.replies| > 0 then t.replies[0] else IoFailure)
  {
    match FirstBadRecord(topic, records)
    case Some(err) => (Err(err), s.health, t)
    case None =>
      var (reply, t') := Exchange(t, PostRequest(s, topic.name, Payload(keyId, valueId, topic, records, fmt)));
      var (result, health) := Acknowledge(reply);
      (result, health, t')
  }

  /** `send(records)`: an empty batch does nothing; otherwise the schema ids are resolved, and
      the batch is checked and posted. Only the registry client and the health change. */
  function Send(s: Sender, topic: Topic, records: seq<Record>, fmt: AvroJson.RealFormat, net: Net): (o: Outcome)
    ensures |records| == 0 ==> o == Outcome(Ok(NothingToSend), s, net, [])
    ensures |records| > 0 ==> 1 <= |o.lookups| <= 2 && o.lookups[0] == KeyLookup(topic)
    ensures o.sender == s.(registry := o.sender.registry, health := o.sender.health)
    ensures o.sender.registry.config == s.registry.config
    ensures (o.sender.registry, o.net.registry) == Replay(s.registry, net.registry, o.lookups)
    ensures |net.server.sent| <= |o.net.server.sent| <= |net.server.sent| + 1 && o.net.server.sent[..|net.server.sent|] == net.server.sent
    ensures o.result.Ok? && |records| > 0 ==> o.lookups == [KeyLookup(topic), ValueLookup(topic)]
  {
    if |records| == 0 then Outcome(Ok(NothingToSend), s, net, [])
    else
      var res := Resolve(s.registry, topic, net.registry);
      ResolveReplays(s.registry, topic, net.registry);
      var s1 := s.(registry := res.registry);
      var net1 := net.(registry := res.net);
      match res.ids
      case Err(e) => Outcome(Err(e), s1, net1, res.lookups)
      case Ok((keyId, valueId)) =>
        var (result, health, t') := Transmit(s1, topic, records, keyId, valueId, fmt, net.server);
        Outcome(result, s1.(health := health), net1.(server := t'), res.lookups)
  }

  /** A delivered batch is one POST whose payload gives the proxy the resolved ids and every
      record of the batch, in order. */
  lemma SendDelivers(s: Sender, topic: Topic, records: seq<Record>, fmt: AvroJson.RealFormat, net: Net)
    requires AvroJson.Faithful(fmt)
    ensures var o := Send(s, topic, records, fmt, net);
      var res := Resolve(s.registry, topic, net.registry);
      o.result.Ok? && |records| > 0 ==>
        res.ids.Ok? && AllConform(topic, records) && o.sender.health == Connected &&
        |o.net.server.sent| == |net.server.sent| + 1 &&
        var req := o.net.server.sent[|net.server.sent|];
        req.path == TopicPath(s.server, topic.name) &&
        req.body == (if s.compression then Gzip(Render(Payload(res.ids.value.0, res.ids.value.1, topic, records, fmt)))
                     else Text(Render(Payload(res.ids.value.0, res.ids.value.1, topic, records, fmt)))) &&
        ReadPayload(topic, Payload(res.ids.value.0, res.ids.value.1, topic, records, fmt), fmt)
          == Some((res.ids.value.0, res.ids.value.1, Contents(records)))
  {
    var o := Send(s, topic, records, fmt, net);
    var res := Resolve(s.registry, topic, net.registry);
    if o.result.Ok? && |records| > 0 {
      PayloadReadsBack(res.ids.value.0, res.ids.value.1, topic, records, fmt);
    }
  }

  /** A batch whose records do not all fit the schemas is not sent, and the health is unchanged. */
  lemma SendRejectsBadRecords(s: Sender, topic: Topic, records: seq<Record>, fmt: AvroJson.RealFormat, net: Net)
    requires !AllConform(topic, records)
    ensures var o := Send(s, topic, records, fmt, net);
      o.result.Err? && o.net.server == net.server && o.sender.health == s.health
  {
  }

  /** A send through a warm registry client, answered 2xx with an offset: no registry request,
      one POST of the batch, and the offset as result. */
  lemma SendWarm(s: Sender, topic: Topic, records: seq<Record>, fmt: AvroJson.RealFormat, net: Net,
                 kid: int, vid: int, offset: int, status: int)
    requires |records| > 0 && AllConform(topic, records)
    requires SchemaRegistry.Subject(topic.name, false) in s.registry.cache
    requires SchemaRegistry.Subject(topic.name, true) in s.registry.cache
    requires s.registry.cache[SchemaRegistry.Subject(topic.name, false)].id == Some(kid)
    requires s.registry.cache[SchemaRegistry.Subject(topic.name, true)].id == Some(vid)
    requires IsSuccess(status)
    requires |net.server.replies| > 0
    requires net.server.replies[0] == Reply(status, Some(JObject([("offset", JNumber(Decimal.IntToString(offset)))])))
    ensures var o := Send(s, topic, records, fmt, net);
      o.result == Ok(Acknowledged(offset)) && o.lookups == [KeyLookup(topic), ValueLookup(topic)] &&
      o.net.registry == net.registry && o.sender == s.(health := Connected) &&
      o.net.server.sent == net.server.sent + [PostRequest(s, topic.name, Payload(kid, vid, topic, records, fmt))]
  {
    ResolveWarm(s.registry, topic, net.registry, kid, vid);
    var req := PostRequest(s, topic.name, Payload(kid, vid, topic, records, fmt));
    var tr := Transmit(s, topic, records, kid, vid, fmt, net.server);
    assert tr.2.sent == net.server.sent + [req];
    AcknowledgeOffset(status, offset);
    assert (tr.0, tr.1) == (Ok(Acknowledged(offset)), Connected);
  }

  /** A 2xx reply carrying `{"offset": n}` acknowledges offset n. */
  lemma AcknowledgeOffset(status: int, offset: int)
    requires IsSuccess(status)
    ensures Acknowledge(Reply(status, Some(JObject([("offset", JNumber(Decimal.IntToString(offset)))]))))
      == (Ok(Acknowledged(offset)), Connected)
  {
    Decimal.ParseIntToString(offset);
  }

  /** The mock web server of RestSenderTest: the root of a local server. */
  function TestServer(port: nat): ServerConfig {
    ServerConfig("http", "localhost", port, "/")
  }

  lemma TestTopicPath(port: nat)
    ensures Root(TestServer(port)) == "/"
    ensures TopicPath(TestServer(port), "test") == "/topics/test"
  {
  }

  /** RestSenderTest.resetConnection: an unprobed sender probes once and answers false on 500;
      a reset probes again; once disconnected, asking costs nothing; a reset answered 200 connects. */
  lemma ResetConnectionScenario(port: nat, reg: SchemaRegistry.Registry, headers: seq<(string, string)>, compression: bool)
    ensures var s0 := Sender(TestServer(port), reg, headers, compression, Unknown);
      var head := Request(Head, "/", [], NoBody);
      var (b1, s1, t1) := IsConnected(s0, Transport([Reply(500, None)], []));
      var (b2, s2, t2) := ResetConnection(s1, Transport([Reply(500, None)], t1.sent));
      var (b3, s3, t3) := IsConnected(s2, Transport([Reply(200, None)], t2.sent));
      var (b4, s4, t4) := ResetConnection(s3, t3);
      !b1 && t1.sent == [head] &&
      !b2 && t2.sent == [head, head] &&
      !b3 && t3 == Transport([Reply(200, None)], t2.sent) &&
      b4 && t4.sent == [head, head, head] && s4.health == Connected
  {
    TestTopicPath(port);
  }

  /** The topic `test` of RestSenderTest: `ObservationKey` keys and `PhoneLight` values. */
  const TestTopic: Topic := Topic("test", ObservationKey, PhoneLight)

  /** The mocked registry client of RestSenderTest: both schemas known with id 10 and version 2. */
  function TestRegistry(port: nat): (reg: SchemaRegistry.Registry)
    ensures SchemaRegistry.Subject("test", false) in reg.cache && SchemaRegistry.Subject("test", true) in reg.cache
    ensures reg.cache[SchemaRegistry.Subject("test", false)].id == Some(10)
    ensures reg.cache[SchemaRegistry.Subject("test", true)].id == Some(10)
  {
    SchemaRegistry.SubjectExample();
    SchemaRegistry.Registry(TestServer(port), map[
      SchemaRegistry.Subject("test", false) := SchemaRegistry.Metadata(Some(10), Some(2), ObservationKey.text),
      SchemaRegistry.Subject("test", true) := SchemaRegistry.Metadata(Some(10), Some(2), PhoneLight.text)])
  }

  /** A record of the tests: that key, and a value of two double and one float bit patterns. */
  predicate IsTestRecord(r: Record) {
    r.key == [DString("test"), DString("a"), DString("b")] && |r.value| == 3 &&
    r.value[0].DDouble? && r.value[0].doubleBits < 0x1_0000_0000_0000_0000 &&
    r.value[1].DDouble? && r.value[1].doubleBits < 0x1_0000_0000_0000_0000 &&
    r.value[2].DFloat? && r.value[2].floatBits < 0x1_0000_0000
  }

  lemma TestRecordsConform(records: seq<Record>)
    requires forall i :: 0 <= i < |records| ==> IsTestRecord(records[i])
    ensures AllConform(TestTopic, records)
  {
    forall i | 0 <= i < |records|
      ensures Conforms(TestTopic.keySchema, records[i].key) && Conforms(TestTopic.valueSchema, records[i].value)
    {
      var r := records[i];
      assert ConformsAt(ObservationKey.fields, r.key, 0) && ConformsAt(ObservationKey.fields, r.key, 1)
          && ConformsAt(ObservationKey.fields, r.key, 2);
      assert ConformsAt(PhoneLight.fields, r.value, 0) && ConformsAt(PhoneLight.fields, r.value, 1)
          && ConformsAt(PhoneLight.fields, r.value, 2);
    }
  }

  /** The proxy's `{"offset": 100}`. */
  const OffsetReply: Reply := Reply(200, Some(JObject([("offset", JNumber("100"))])))

  /** The proxy of RestSenderTest, answering `{"offset": 100}`, and a registry nobody calls. */
  const TestNet: Net := Net(Transport([OffsetReply], []), Transport([], []))

  /** A send of test records from a sender of RestSenderTest is one POST and is acknowledged. */
  lemma TestSendPosts(port: nat, headers: seq<(string, string)>, compression: bool, records: seq<Record>,
                      fmt: AvroJson.RealFormat)
    requires 0 < |records| && forall i :: 0 <= i < |records| ==> IsTestRecord(records[i])
    ensures AllConform(TestTopic, records)
    ensures var s := Sender(TestServer(port), TestRegistry(port), headers, compression, Unknown);
      var o := Send(s, TestTopic, records, fmt, TestNet);
      o.result == Ok(Acknowledged(100)) &&
      o.lookups == [RegistryCall("test", false, ObservationKey.text, -1), RegistryCall("test", true, PhoneLight.text, -1)] &&
      o.net.registry == TestNet.registry &&
      o.net.server.sent == [PostRequest(s, "test", Payload(10, 10, TestTopic, records, fmt))]
  {
    TestRecordsConform(records);
    var s := Sender(TestServer(port), TestRegistry(port), headers, compression, Unknown);
    assert Decimal.IntToString(100) == "100";
    SendWarm(s, TestTopic, records, fmt, TestNet, 10, 10, 100, 200);
  }

  /** RestSenderTest.sender and sendTwo: a batch of test records on topic `test` is one POST to
      `/topics/test`; there is exactly one key lookup and one value lookup, both at version -1,
      whatever the batch size, and the registry sees no request (its client is warm); without
      compression the body is the payload text. */
  lemma SenderScenario(port: nat, headers: seq<(string, string)>, records: seq<Record>, fmt: AvroJson.RealFormat)
    requires 0 < |records| && forall i :: 0 <= i < |records| ==> IsTestRecord(records[i])
    ensures AllConform(TestTopic, records)
    ensures var o := Send(Sender(TestServer(port), TestRegistry(port), headers, false, Unknown), TestTopic, records, fmt, TestNet);
      o.result == Ok(Acknowledged(100)) &&
      o.lookups == [RegistryCall("test", false, ObservationKey.text, -1), RegistryCall("test", true, PhoneLight.text, -1)] &&
      o.net.registry == TestNet.registry &&
      |o.net.server.sent| == 1 && o.net.server.sent[0].verb == Post && o.net.server.sent[0].path == "/topics/test" &&
      o.net.server.sent[0].body == Text(Render(Payload(10, 10, TestTopic, records, fmt)))
  {
    TestSendPosts(port, headers, false, records, fmt);
    TestTopicPath(port);
  }

  /** RestSenderTest.sender: the two `Cookie` headers arrive with both values, in order. */
  lemma SenderHeadersScenario(port: nat, records: seq<Record>, fmt: AvroJson.RealFormat)
    requires 0 < |records| && forall i :: 0 <= i < |records| ==> IsTestRecord(records[i])
    ensures var s := Sender(TestServer(port), TestRegistry(port), [("Cookie", "ab"), ("Cookie", "bc")], false, Unknown);
      var o := Send(s, TestTopic, records, fmt, TestNet);
      |o.net.server.sent| == 1 && HeaderValues(o.net.server.sent[0].headers, "Cookie") == ["ab", "bc"]
  {
    var s := Sender(TestServer(port), TestRegistry(port), [("Cookie", "ab"), ("Cookie", "bc")], false, Unknown);
    var req := PostRequest(s, "test", Payload(10, 10, TestTopic, records, fmt));
    TestSendPosts(port, s.headers, false, records, fmt);
    assert Send(s, TestTopic, records, fmt, TestNet).net.server.sent == [req];
    CookieValues(s, req);
  }

  lemma CookieValues(s: Sender, req: Request)
    requires s.headers == [("Cookie", "ab"), ("Cookie", "bc")] && req.headers == s.headers
    ensures HeaderValues(req.headers, "Cookie") == ["ab", "bc"]
  {
    assert HeaderValues(s.headers[2..], "Cookie") == [];
    assert HeaderValues(s.headers[1..], "Cookie") == ["bc"];
  }

  /** RestSenderTest.checkChildren: every element of `records` holds the key and value objects of
      its record, in order, and the ids are 10. */
  lemma SenderPayloadScenario(records: seq<Record>, fmt: AvroJson.RealFormat)
    requires forall i :: 0 <= i < |records| ==> IsTestRecord(records[i])
    requires AvroJson.Faithful(fmt)
    ensures AllConform(TestTopic, records)
    ensures ReadPayload(TestTopic, Payload(10, 10, TestTopic, records, fmt), fmt) == Some((10, 10, Contents(records)))
  {
    TestRecordsConform(records);
    PayloadReadsBack(10, 10, TestTopic, records, fmt);
  }

  /** RestSenderTest.withCompression: the same send with compression on carries
      `Content-Encoding: gzip` and the gzip-compressed payload text. */
  lemma CompressionScenario(port: nat, records: seq<Record>, fmt: AvroJson.RealFormat)
    requires 0 < |records| && forall i :: 0 <= i < |records| ==> IsTestRecord(records[i])
    ensures AllConform(TestTopic, records)
    ensures var s := Sender(TestServer(port), TestRegistry(port), [], true, Unknown);
      var o := Send(s, TestTopic, records, fmt, TestNet);
      o.result == Ok(Acknowledged(100)) && |o.net.server.sent| == 1 &&
      HeaderValues(o.net.server.sent[0].headers, "Content-Encoding") == ["gzip"] &&
      o.net.server.sent[0].body == Gzip(Render(Payload(10, 10, TestTopic, records, fmt)))
  {
    var s := Sender(TestServer(port), TestRegistry(port), [], true, Unknown);
    var req := PostRequest(s, "test", Payload(10, 10, TestTopic, records, fmt));
    TestSendPosts(port, [], true, records, fmt);
    assert Send(s, TestTopic, records, fmt, TestNet).net.server.sent == [req];
    PostHeaders(s, "test", Payload(10, 10, TestTopic, records, fmt), "Content-Encoding");
    assert HeaderValues(req.headers, "Content-Encoding") == ["gzip"];
  }
}

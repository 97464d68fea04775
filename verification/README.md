# RADAR-commons core, modelled in Dafny

This project models the core of RADAR-commons, the shared Java library of the RADAR-CNS
platform. The core covers these parts:

- **Record encoding.** Avro records are written as Avro binary or Avro JSON (`AvroBinary`,
  `AvroJson`, `AvroSchema`). Below them sit the UTF-8, JSON-escaping and decimal layers
  (`Utf8`, `Json`, `Decimal`). `Hex` models the test helper that prints bytes as hex text.
- **Server configuration.** `Config` covers the URL of a server and its normalised base path.
- **Schema-registry client.** `SchemaRegistry` covers subject names and request paths. It also
  covers the subject-keyed cache of schema metadata, registration of a schema, and the
  get-or-register fallback on a 404 reply.
- **REST sender.** `RestSender` sends a batch of records of one topic as one JSON POST. It
  first resolves the key and value schema ids, checks every record against its schema before
  anything is written, and tracks whether the server is reachable. `Http` is a scripted HTTP
  exchange: requests are recorded in order, and each one takes the next scripted reply.
- **Utilities.**
  - `Oscilloscope` is the beat counter used by the mock data producers.
  - `DoubleArrayCollector` feeds fixed-width samples to one sub-collector per position.
  - `Strings` holds the literal, case-insensitive containment patterns and the null-or-empty
    test.

The implementation classes of the encoders, the registry client, the sender and the server
configuration are not part of this model. Their behaviour is modelled from the unit tests
cited below. Oscilloscope, DoubleArrayCollector and Strings are modelled from their own
source.

These are parameters of the model:

- Every HTTP exchange is a `Transport` value: the replies still waiting and the requests sent
  so far. A missing reply is an I/O failure.
- Clock readings are `now` arguments.
- How floats and doubles are printed in JSON is a `RealFormat` argument.
- Unicode case folding is a `fold: char -> char` argument.

## Model

| member | source | states |
|---|---|---|
| AvroBinary.ZigZagBijection | src/test/java/org/radarcns/data/SpecificRecordEncoderTest.java:48-52 | Zig-zag coding maps the integers one-to-one onto the naturals: decoding undoes encoding both ways, so the union index 1 is written as 2. |
| AvroBinary.Varint | src/test/java/org/radarcns/data/SpecificRecordEncoderTest.java:48-52 | A varint has at least one byte. Every byte but the last has the high bit set. It is one byte exactly for values below 128. |
| AvroBinary.ReadVarintRoundTrip | src/test/java/org/radarcns/data/SpecificRecordEncoderTest.java:48-52 | Reading a varint back gives the value and leaves the following bytes untouched. |
| AvroBinary.LongTakesAtMostTenBytes | src/test/java/org/radarcns/data/SpecificRecordEncoderTest.java:48-52 | Every 64-bit long is written in at most ten bytes. |
| AvroBinary.ReadLongRoundTrip | src/test/java/org/radarcns/data/SpecificRecordEncoderTest.java:48-52 | An int or long read back after zig-zag and varint coding is the original value. |
| AvroBinary.LittleEndianRoundTrip | src/test/java/org/radarcns/data/SpecificRecordEncoderTest.java:56-61 | The fixed-width little-endian bytes of a float or double bit pattern read back to that pattern. |
| AvroBinary.ReadBytesRoundTrip | src/test/java/org/radarcns/data/SpecificRecordEncoderTest.java:51-52 | Length-prefixed bytes read back exactly, with the rest of the input left over. |
| AvroBinary.Encode | src/test/java/org/radarcns/data/SpecificRecordEncoderTest.java:41-62 | Binary encoding succeeds exactly when the record fits its schema. Otherwise the error is the schema check's first failure. |
| AvroBinary.DecodeEncode | src/test/java/org/radarcns/data/SpecificRecordEncoderTest.java:41-62 | Decoding what the binary encoder wrote gives back the record. |
| AvroBinary.EncodeFieldsAppend | src/test/java/org/radarcns/data/SpecificRecordEncoderTest.java:51-52 | A record's bytes are its fields' bytes in declaration order, with nothing between them. |
| AvroBinary.StringEncoding | src/test/java/org/radarcns/data/SpecificRecordEncoderTest.java:51-52 | A string is the zig-zag varint of its UTF-8 byte count, followed by those bytes. |
| AvroBinary.NullableTag | src/test/java/org/radarcns/data/SpecificRecordEncoderTest.java:51-52 | A nullable field holding null is the single byte 0. Holding a value, it is tag 2 followed by the plain field's bytes. |
| AvroBinary.ShortAsciiString | src/test/java/org/radarcns/data/SpecificRecordEncoderTest.java:51-52 | A short ASCII string is its doubled length in one byte, then its character codes. |
| AvroBinary.ObservationKeyExample | src/test/java/org/radarcns/data/SpecificRecordEncoderTest.java:47-55 | `ObservationKey("test","a","b")` encodes to `{2,8,116,101,115,116,2,97,2,98}`. |
| AvroBinary.BloodVolumePulseExample | src/test/java/org/radarcns/data/SpecificRecordEncoderTest.java:56-61 | `EmpaticaE4BloodVolumePulse(0d,0d,0f)` encodes to twenty zero bytes. |
| AvroSchema.FirstMismatch | src/test/java/org/radarcns/data/SpecificRecordEncoderTest.java:32-33 | It finds no field exactly when all fields conform. A field it reports is the first one that does not fit. |
| AvroSchema.Check | src/test/java/org/radarcns/data/SpecificRecordEncoderTest.java:32-33 | The check passes exactly when the record conforms. A count mismatch is reported exactly when the number of values differs from the number of fields. |
| AvroJson.Encode | src/test/java/org/radarcns/data/SpecificRecordEncoderTest.java:29-39 | JSON encoding succeeds exactly when the record fits its schema. |
| AvroJson.RecordToJson | src/test/java/org/radarcns/data/SpecificRecordEncoderTest.java:37-38 | The JSON tree of a record is an object with one member per field. |
| AvroJson.RecordRoundTrip | src/test/java/org/radarcns/data/SpecificRecordEncoderTest.java:29-39 | Reading a record's JSON tree back gives the record, whenever the number format reads back. |
| AvroJson.ObservationKeyExample | src/test/java/org/radarcns/data/SpecificRecordEncoderTest.java:35-37 | The key's text is `{"projectId":{"string":"test"},"userId":"a","sourceId":"b"}`: the non-null union branch is wrapped. |
| AvroJson.BloodVolumePulseExample | src/test/java/org/radarcns/data/SpecificRecordEncoderTest.java:36-38 | With zero printed as `0.0`, the value's text is `{"time":0.0,"timeReceived":0.0,"bloodVolumePulse":0.0}`. |
| Utf8.EncodeChar | src/test/java/org/radarcns/data/SpecificRecordEncoderTest.java:51-52 | A character takes one to four bytes. It takes one byte, equal to its code, exactly when it is ASCII. |
| Utf8.DecodeEncode | src/test/java/org/radarcns/data/SpecificRecordEncoderTest.java:51-52 | Decoding the UTF-8 bytes of a string gives the string back. |
| Utf8.EncodeAscii | src/test/java/org/radarcns/data/SpecificRecordEncoderTest.java:51-52 | ASCII text is its own UTF-8 form, one byte per character. |
| Hex.Unsigned | src/test/java/org/radarcns/data/SpecificRecordEncoderTest.java:67 | `b & 0xff` equals `b` modulo 256. A negative byte gains 256. |
| Hex.ByteArrayToHex | src/test/java/org/radarcns/data/SpecificRecordEncoderTest.java:64-69 | The text holds two lower-case hex digits per byte, high nibble first, in byte order. |
| Hex.ParseHexOfHex | src/test/java/org/radarcns/data/SpecificRecordEncoderTest.java:64-69 | Hex text reads back as the unsigned values of its bytes. |
| Hex.ExpectedKeyHex | src/test/java/org/radarcns/data/SpecificRecordEncoderTest.java:52-54 | The expected key prints as `02087465737402610262`. |
| Hex.NegativeBytesHex | src/test/java/org/radarcns/data/SpecificRecordEncoderTest.java:67 | Negative bytes print as their unsigned value: -1 is `ff` and -128 is `80`. |
| Json.EscapeChar | src/test/java/org/radarcns/producer/rest/SchemaRetrieverTest.java:123 | A character is escaped exactly when it is a quotation mark, a reverse solidus or a control character. Any other character stands for itself. |
| Json.UnescapeEscape | src/test/java/org/radarcns/producer/rest/SchemaRetrieverTest.java:123 | Unescaping an escaped text gives the text back. |
| Json.EscapeAppend | src/test/java/org/radarcns/producer/rest/SchemaRetrieverTest.java:123 | Escaping distributes over concatenation. |
| Json.EscapeHasNoBareQuote | src/test/java/org/radarcns/producer/rest/SchemaRetrieverTest.java:123 | An escaped text holds no quotation mark without a reverse solidus before it, so a string literal ends where it should. |
| Json.QuotePlain | src/test/java/org/radarcns/data/SpecificRecordEncoderTest.java:37 | Text with no character that needs escaping is quoted as it is. |
| Json.MemberValue | src/test/java/org/radarcns/producer/rest/RestSenderTest.java:109-111 | A member is found exactly when the value is an object with a member of that name. |
| Decimal.ParseIntToString | src/test/java/org/radarcns/producer/rest/SchemaRetrieverTest.java:71-74 | Parsing the decimal text of any integer gives the integer back. |
| Decimal.NatToStringInjective | src/test/java/org/radarcns/producer/rest/SchemaRetrieverTest.java:87 | Distinct numbers have distinct numerals. |
| Config.NormalizePath | src/test/java/org/radarcns/config/ServerConfigTest.java:24 | The normalised path starts and ends with a slash and keeps the given path inside it. A path already slashed on both ends is unchanged. |
| Config.NormalizeIdempotent | src/test/java/org/radarcns/config/ServerConfigTest.java:31-46 | Normalising twice is the same as normalising once. |
| Config.NormalizeIgnoresSlashes | src/test/java/org/radarcns/config/ServerConfigTest.java:31-46 | A missing leading or trailing slash gives the same base path. |
| Config.UrlString | src/test/java/org/radarcns/config/ServerConfigTest.java:27-28 | The URL text is the protocol, then `://`, and ends with a slash. |
| Config.DefaultPort | src/test/java/org/radarcns/config/ServerConfigTest.java:26 | The default port of http is 80 and of https 443; any other protocol has none (-1). |
| Config.ParseUrl | src/test/java/org/radarcns/config/ServerConfigTest.java:20 | A parsed URL has a non-empty protocol and host without separators, and a port of -1 or more; a colon without digits means no port. |
| Config.ParseUrlString | src/test/java/org/radarcns/config/ServerConfigTest.java:18-29 | Parsing a configuration's URL text gives the configuration back, with its path normalised. |
| Config.ParseAuthorityEmptyPort | src/test/java/org/radarcns/config/ServerConfigTest.java:20-25 | `host:` followed by a path, with no port digits, reads as that host with no port (-1) and that path. |
| Config.SomethingElseParse | src/test/java/org/radarcns/config/ServerConfigTest.java:20-25 | `http://something.else/that` has protocol `http`, host `something.else`, no port and path `/that`. |
| Config.SomethingElseUrl | src/test/java/org/radarcns/config/ServerConfigTest.java:24-28 | That configuration prints as `http://something.else/that/`, and http's default port is 80. |
| Config.SchemaPathExample | src/test/java/org/radarcns/config/ServerConfigTest.java:31-46 | The paths `/schema/` and `/schema` both give `http://52.210.59.174/schema/`. |
| SchemaRegistry.ParseSubjectOfSubject | src/test/java/org/radarcns/producer/rest/SchemaRetrieverTest.java:63-67 | A subject name reads back as its topic and its key or value role. |
| SchemaRegistry.SubjectInjective | src/test/java/org/radarcns/producer/rest/SchemaRetrieverTest.java:63-67 | Distinct topics or roles have distinct subjects. |
| SchemaRegistry.SubjectExample | src/test/java/org/radarcns/producer/rest/SchemaRetrieverTest.java:63-67 | The subjects of topic `bla` are `bla-value` and `bla-key`. |
| SchemaRegistry.VersionSegment | src/test/java/org/radarcns/producer/rest/SchemaRetrieverTest.java:69-88 | A negative version is `latest`. Any other version is a numeral that parses back to it. |
| SchemaRegistry.VersionPath | src/test/java/org/radarcns/producer/rest/SchemaRetrieverTest.java:76 | A lookup path is the versions path, a slash, then the version segment. |
| SchemaRegistry.TestVersionPaths | src/test/java/org/radarcns/producer/rest/SchemaRetrieverTest.java:76-87 | Under base `base`, versions -1 and 2 of `bla-value` are `/base/subjects/bla-value/versions/latest` and `/…/versions/2`. |
| SchemaRegistry.Answer | src/test/java/org/radarcns/producer/rest/SchemaRetrieverTest.java:106-110 | A reply yields JSON exactly when it succeeded with a JSON body. A non-2xx status is an error carrying that status. |
| SchemaRegistry.ParseMetadata | src/test/java/org/radarcns/producer/rest/SchemaRetrieverTest.java:71-75 | A reply reads as metadata exactly when it has integer `id` and `version` members and a string `schema` member; the metadata holds those values. |
| SchemaRegistry.Retrieve | src/test/java/org/radarcns/producer/rest/SchemaRetrieverTest.java:69-88 | A retrieval sends exactly one GET, to the version path, and is never cached. On success the id, version and schema are the reply's `id`, `version` and `schema` members; a failed reply is passed on as the error. |
| SchemaRegistry.RetrieveScenario | src/test/java/org/radarcns/producer/rest/SchemaRetrieverTest.java:69-88 | The lookup reply of the tests yields id 10, version 2 and schema `"string"`. |
| SchemaRegistry.GetMetadata | src/test/java/org/radarcns/producer/rest/SchemaRetrieverTest.java:90-111 | A cached subject costs no request, for any version. Otherwise the result and the request are those of one retrieval, and only its success is cached. |
| SchemaRegistry.CachedLookupIsFree | src/test/java/org/radarcns/producer/rest/SchemaRetrieverTest.java:99-104 | After a successful lookup, asking again at any version sends nothing and gives the same metadata. |
| SchemaRegistry.FailedLookupNotCached | src/test/java/org/radarcns/producer/rest/SchemaRetrieverTest.java:106-110 | A failed lookup caches nothing, so asking again sends a new request. |
| SchemaRegistry.GetSchemaMetadataScenario | src/test/java/org/radarcns/producer/rest/SchemaRetrieverTest.java:90-111 | The first lookup is one GET for id 10, version 2. The second, at version -1, sends nothing. The key subject's lookup meets a 500 and fails. |
| SchemaRegistry.RegistrationBodyReadsBack | src/test/java/org/radarcns/producer/rest/SchemaRetrieverTest.java:122-123 | The registration body is `{"schema":"…"}` whose string literal unescapes to exactly the schema text. |
| SchemaRegistry.StringSchemaBody | src/test/java/org/radarcns/producer/rest/SchemaRetrieverTest.java:123 | The body posted for the schema `"string"` is `{"schema":"\"string\""}`. |
| SchemaRegistry.AddMetadata | src/test/java/org/radarcns/producer/rest/SchemaRetrieverTest.java:113-124 | Registration is one POST of the schema text to the versions path. On success the reply's id is set on the metadata, nothing else changes, and the metadata is cached. A failure leaves the client unchanged. |
| SchemaRegistry.AddMetadataScenario | src/test/java/org/radarcns/producer/rest/SchemaRetrieverTest.java:114-121 | The reply `{"id":10}` sets id 10, keeps the schema and caches the subject, after exactly one request. |
| SchemaRegistry.GetOrSet | src/test/java/org/radarcns/producer/rest/SchemaRetrieverTest.java:138-172 | A cached subject costs nothing. Otherwise the first request is the GET of the lookup, and a second request is sent exactly when that lookup was answered 404; it is the POST of the schema to the versions path. A success is cached; a failure leaves the client unchanged. |
| SchemaRegistry.GetOrSetRegistersOn404 | src/test/java/org/radarcns/producer/rest/SchemaRetrieverTest.java:138-155 | An unknown subject (404) is registered. That takes two requests and consumes two replies, whatever follows them; the second request is a POST to the versions path. The result carries the POST's id, and asking again is free. |
| SchemaRegistry.GetOrSetFound | src/test/java/org/radarcns/producer/rest/SchemaRetrieverTest.java:157-172 | A subject the registry knows needs one GET and no registration. |
| SchemaRegistry.GetOrSetOtherFailure | src/test/java/org/radarcns/producer/rest/SchemaRetrieverTest.java:106-110 | A lookup failure other than 404 is passed on without a registration. |
| SchemaRegistry.GetOrSetScenario | src/test/java/org/radarcns/producer/rest/SchemaRetrieverTest.java:139-154 | A 404 followed by `{"id":10}` means two requests and id 10, and the repeat call is free. |
| SchemaRegistry.GetOrSetPostScenario | src/test/java/org/radarcns/producer/rest/SchemaRetrieverTest.java:147-150 | The second request is a POST to `/base/subjects/bla-value/versions` with body `{"schema":"\"string\""}`. |
| SchemaRegistry.GetOrSetGetScenario | src/test/java/org/radarcns/producer/rest/SchemaRetrieverTest.java:157-172 | A known subject at version 2 costs one GET to `/base/subjects/bla-value/versions/2` and gives id 10. Asking again is free. |
| RestSender.ResetConnection | src/test/java/org/radarcns/producer/rest/RestSenderTest.java:164-188 | A reset always sends one HEAD probe to the base path. The answer is true exactly when the probe succeeds, and the health follows it. |
| RestSender.IsConnected | src/test/java/org/radarcns/producer/rest/RestSenderTest.java:168-182 | A known health is answered without a request. Only an unprobed server is probed. |
| RestSender.IsConnectedStable | src/test/java/org/radarcns/producer/rest/RestSenderTest.java:180-182 | Asking twice gives the same answer, and the second time costs no request. |
| RestSender.ResetConnectionScenario | src/test/java/org/radarcns/producer/rest/RestSenderTest.java:164-188 | The test's sequence: 500 → false, reset 500 → false, a disconnected sender asks for free, reset 200 → true. Each probe is `HEAD /`. |
| RestSender.Resolve | src/test/java/org/radarcns/producer/rest/RestSenderTest.java:100-103 | The key schema is looked up first, then the value schema, both at version -1. A failed key lookup stops before the value lookup. The key id is the key lookup's id and the value id is the id of the value lookup made after it. |
| RestSender.ResolveReplays | src/test/java/org/radarcns/producer/rest/RestSenderTest.java:100-103 | The calls a resolution reports are exactly the registry traffic it made. |
| RestSender.ResolveWarm | src/test/java/org/radarcns/producer/rest/RestSenderTest.java:87-92 | With both subjects cached, resolving gives the cached ids without a registry request. |
| RestSender.FirstBadRecord | src/test/java/org/radarcns/producer/rest/RestSenderTest.java:98 | It finds no bad record exactly when every key and value fits its schema. A reported record is preceded only by fitting records, and a reported value belongs to a record whose key fits; the error is the schema check's. |
| RestSender.PayloadReadsBack | src/test/java/org/radarcns/producer/rest/RestSenderTest.java:107-114 | From the payload the proxy reads back both schema ids and every record's key and value, in order. |
| RestSender.RecordsJsonReadBack | src/test/java/org/radarcns/producer/rest/RestSenderTest.java:233-245 | Each element of `records` reads back as its record's key and value. |
| RestSender.TopicPath | src/test/java/org/radarcns/producer/rest/RestSenderTest.java:106 | The topic path is the base path, then `topics/`, then the topic name. |
| RestSender.PostRequest | src/test/java/org/radarcns/producer/rest/RestSenderTest.java:105-108 | The POST goes to the topic path. Its decompressed body is the payload text, and it is gzipped exactly when compression is on. |
| RestSender.HeaderValuesAppend | src/test/java/org/radarcns/producer/rest/RestSenderTest.java:116 | The values of a header name across two header lists are the values of each list, in order. |
| RestSender.PostHeaders | src/test/java/org/radarcns/producer/rest/RestSenderTest.java:75-79 | Every configured header arrives with all its values, in order. Compression only adds `Content-Encoding: gzip`. |
| RestSender.CompressionKeepsPayload | src/test/java/org/radarcns/producer/rest/RestSenderTest.java:190-231 | With or without compression, the same batch goes to the same path with the same text. |
| RestSender.Acknowledge | src/test/java/org/radarcns/producer/rest/RestSenderTest.java:94-96 | A reply acknowledges exactly when it is 2xx with an integer `offset`, and the result is that offset. A non-2xx status is a rejection, and the health follows success. |
| RestSender.AcknowledgeOffset | src/test/java/org/radarcns/producer/rest/RestSenderTest.java:94-96 | A 2xx reply `{"offset": n}` acknowledges offset n. |
| RestSender.Transmit | src/test/java/org/radarcns/producer/rest/RestSenderTest.java:98-114 | A batch with a misfit record is refused before any request. Otherwise it is one POST whose reply decides the result. |
| RestSender.Send | src/test/java/org/radarcns/producer/rest/RestSenderTest.java:98-114 | An empty batch does nothing. Otherwise the key is looked up first, at most one POST is sent, and only the registry client and the health change. |
| RestSender.SendDelivers | src/test/java/org/radarcns/producer/rest/RestSenderTest.java:98-114 | A delivered batch is one POST whose payload gives the resolved ids and every record, in order. |
| RestSender.SendRejectsBadRecords | src/test/java/org/radarcns/producer/rest/RestSenderTest.java:98 | A batch with a misfit record sends no POST and leaves the health unchanged. |
| RestSender.SendWarm | src/test/java/org/radarcns/producer/rest/RestSenderTest.java:87-98 | With a warm registry client and a 2xx offset reply, a send makes no registry request and one POST, and the offset is the result. |
| RestSender.SenderScenario | src/test/java/org/radarcns/producer/rest/RestSenderTest.java:69-162 | For the test topic, a batch of any size is one POST to `/topics/test` after exactly one key and one value lookup at version -1. |
| RestSender.SenderHeadersScenario | src/test/java/org/radarcns/producer/rest/RestSenderTest.java:75-116 | The two `Cookie` headers arrive as `["ab", "bc"]`. |
| RestSender.SenderPayloadScenario | src/test/java/org/radarcns/producer/rest/RestSenderTest.java:109-114 | The payload carries schema ids 10 and 10, and each record's key and value objects in order. |
| RestSender.CompressionScenario | src/test/java/org/radarcns/producer/rest/RestSenderTest.java:190-231 | With compression on, the POST carries `Content-Encoding: gzip` and the gzipped payload text. |
| Oscilloscope.JavaDivRem | radar-commons-testing/src/main/java/org/radarcns/util/Oscilloscope.java:38 | Java's truncating `/` and sign-of-dividend `%` satisfy `(a / b) * b + a % b == a`. |
| Oscilloscope.Create | radar-commons-testing/src/main/java/org/radarcns/util/Oscilloscope.java:35-40 | Construction fails exactly for frequency 0. Otherwise it starts at iteration 0 at the current time, with time step `10^9 / frequency`. |
| Oscilloscope.Reset | radar-commons-testing/src/main/java/org/radarcns/util/Oscilloscope.java:43-46 | A reset starts the count at 0 at the current time and keeps the frequency and time step. |
| Oscilloscope.Beat | radar-commons-testing/src/main/java/org/radarcns/util/Oscilloscope.java:59-69 | The beat number lies between 1 and the absolute value of the frequency, and is the iteration modulo the frequency, plus one. The count goes up by one. The sleep is positive exactly when the beat is early, and it lasts until the scheduled time. |
| Oscilloscope.WillRestartIsBeatOne | radar-commons-testing/src/main/java/org/radarcns/util/Oscilloscope.java:48-51 | `willRestart` holds exactly when the next beat is number one. After the last number of a cycle it holds again. |
| Oscilloscope.FreshWillRestart | radar-commons-testing/src/main/java/org/radarcns/util/Oscilloscope.java:35-51 | A new or reset oscilloscope will restart. |
| Oscilloscope.Beats | radar-commons-testing/src/main/java/org/radarcns/util/Oscilloscope.java:59-69 | A run of beats gives one number per call and advances the count by the number of calls. |
| Oscilloscope.BeatsCycle | radar-commons-testing/src/main/java/org/radarcns/util/Oscilloscope.java:53-58 | Successive beats count up to the frequency and start again at one. |
| Oscilloscope.FreshBeats | radar-commons-testing/src/main/java/org/radarcns/util/Oscilloscope.java:53-58 | From construction the beats are 1, 2, …, frequency, 1, 2, …. |
| Oscilloscope.BeatAsWritten | radar-commons-testing/src/main/java/org/radarcns/util/Oscilloscope.java:66-67 | As written, the count is a 32-bit int that wraps, and the beat is Java's `%` of it, plus one. |
| Oscilloscope.AsWrittenAgrees | radar-commons-testing/src/main/java/org/radarcns/util/Oscilloscope.java:66-67 | Below 2^31 - 1 beats, the code as written and the corrected beat agree. |
| Oscilloscope.WrappedBeatIsNegative | radar-commons-testing/src/main/java/org/radarcns/util/Oscilloscope.java:66-67 | At frequency 1000, after 2^31 beats the count wraps and the next beat is -647. |
| DoubleArrayCollector.Add | src/main/java/org/radarcns/stream/collector/DoubleArrayCollector.java:32-49 | The first sample fixes the width. A sample of another width is rejected with nothing changed. Otherwise value i goes to sub-collector i and to no other. |
| DoubleArrayCollector.GetCollectors | src/main/java/org/radarcns/stream/collector/DoubleArrayCollector.java:56-58 | The sub-collectors exist exactly after the first sample, and there is one per position. |
| DoubleArrayCollector.AddKeepsWidth | src/main/java/org/radarcns/stream/collector/DoubleArrayCollector.java:39-43 | A successful add never changes the width. |
| DoubleArrayCollector.AddAllColumns | src/main/java/org/radarcns/stream/collector/DoubleArrayCollector.java:44-46 | Adding equally wide samples appends each sample's values to the matching sub-collectors. |
| DoubleArrayCollector.AddAllFresh | src/main/java/org/radarcns/stream/collector/DoubleArrayCollector.java:32-58 | From a fresh collector, sub-collector i holds exactly the values at position i, in the order they were added. |
| DoubleArrayCollector.AddAllRejects | src/main/java/org/radarcns/stream/collector/DoubleArrayCollector.java:39-43 | A sample of another width anywhere in a run makes the run fail with that width mismatch. |
| Strings.IsNullOrEmptyCases | src/main/java/org/radarcns/util/Strings.java:69-71 | A value is null-or-empty exactly when it is missing or the empty string. |
| Strings.ContainsPatterns | src/main/java/org/radarcns/util/Strings.java:36-43 | There is one pattern per string, in iteration order. |
| Strings.LiteralsOfContainsPatterns | src/main/java/org/radarcns/util/Strings.java:36-54 | The compiled patterns' texts are the given strings, in order. |
| Strings.Find | src/main/java/org/radarcns/util/Strings.java:61 | The search answers true exactly when the folded literal occurs in the folded value. |
| Strings.FindAny | src/main/java/org/radarcns/util/Strings.java:59-66 | The answer is true exactly when some pattern matches the value. |
| Strings.FindAnyNone | src/main/java/org/radarcns/util/Strings.java:59-66 | With no patterns, nothing matches. |
| Strings.ContainsPatternsMatch | src/main/java/org/radarcns/util/Strings.java:36-66 | With patterns from `containsPatterns`, a value matches exactly when it contains one of the strings, ignoring case. |
| Strings.EmptyPatternMatches | src/main/java/org/radarcns/util/Strings.java:59-66 | The empty string occurs in every value. |
| Strings.LiteralPatternExample | src/main/java/org/radarcns/util/Strings.java:49-54 | The pattern is literal: `a.c` is not found in `abc` but is found in `xa.cx`. |

## Left out

- Gzip compression itself: a compressed body is modelled as the plain text it holds, because the codec is not part of the library.
- HTTP transport, connection pools, time-outs and concurrency are out. Each exchange is a scripted `Transport`.
- Reading JSON text: replies arrive as parsed `JsonValue` trees, because Jackson's parser is not part of the library.
- Schema parsing and printing are out: a schema's text is a field of `Schema`. Hence the record `C` part of SchemaRetrieverTest.addSchemaMetadata (lines 125-135), which tests Avro's schema printer, is out.
- Only records of primitive and nullable-primitive fields are modelled. General unions, arrays, maps, enums, fixed and nested records do not occur in the tested schemas.
- Floating point: floats and doubles are carried as IEEE-754 bit patterns. Printing them in JSON is the `RealFormat` parameter, because decimal float formatting is Java's.
- Strings.Find: case folding is the `fold` parameter, applied per character. Java's Unicode-aware folding, including folds that change a string's length, is not modelled.
- RestSender.PostHeaders: header names match exactly. OkHttp's case-insensitive header names are not modelled.
- Retrying a send after a connection reset, and 401 or 415 handling, are out. No unit test covers them.
- `setHeaders` and `setCompression` are not separate operations: they are fields of `Sender` set by the caller.
- SchemaRegistry.GetMetadata: the cache is keyed by subject only, as the tests require: a lookup at another version is answered from the cache. A design that keys by subject and version would not pass SchemaRetrieverTest lines 99-104.
- Oscilloscope: `System.nanoTime` and `Thread.sleep` are out. The time is a `now` argument and the sleep is returned in nanoseconds.
- Oscilloscope: the `(int)` cast of the sleep's nanosecond part is not modelled, because it only decides the argument of `Thread.sleep`.
- Oscilloscope: the 64-bit overflow of `baseTime + iteration * timeStep` is not modelled, because it needs a clock beyond 292 years.
- DoubleArrayCollector.Add: each sub-collector is modelled by the samples it received. The statistics of `DoubleValueCollector` and `toString` are out.
- Utf8.Encode: Dafny characters are Unicode scalar values, so unpaired surrogates, which Java strings may hold, are not modelled.
- Config.ParseUrl: user-info (`user@host`), a query or fragment after the path, and bracketed IPv6 hosts are rejected rather than read as `java.net.URL` reads them, because the configurations modelled here are only of the form `protocol://host[:port][/path]`.
- Config.NormalizePath: `ServerConfig`'s own handling of a missing path is not shown. An empty path normalises to `/` here.

## Findings

| source | as written | input that shows it | evidently intended | confidence | as-written member | corrected member |
|---|---|---|---|---|---|---|
| radar-commons-testing/src/main/java/org/radarcns/util/Oscilloscope.java:66-67 | `iteration` is a Java `int`, so `iteration++` wraps to -2^31, and `iteration % frequency` is then negative | frequency 1000 after 2^31 beats: `iteration` is 2^31 - 1, that beat is 648, then the count wraps and the next beat is -647 | beat numbers always in 1..frequency, as the method's documentation promises | not executed | Oscilloscope.BeatAsWritten, Oscilloscope.WrappedBeatIsNegative | Oscilloscope.Beat, Oscilloscope.BeatsCycle |

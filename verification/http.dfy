/** The HTTP exchange the registry client and the sender see: requests go out in order and each
    is answered by the next scripted reply; a missing reply is an I/O failure. */
module Http {
  import opened Results
  import opened Json

  datatype Verb = Get | Post | Head

  /** A request body: none, text, or text sent gzip-compressed (the codec itself is not modelled). */
  datatype Body = NoBody | Text(text: string) | Gzip(plain: string)

  datatype Request = Request(verb: Verb, path: string, headers: seq<(string, string)>, body: Body)

  /** A reply with a status code and, when the body is JSON, its parsed tree. */
  datatype Reply = Reply(status: int, json: Option<JsonValue>) | IoFailure

  /** The requests sent so far and the replies still waiting. */
  datatype Transport = Transport(replies: seq<Reply>, sent: seq<Request>)

  predicate IsSuccess(status: int) {
    200 <= status < 300
  }

  predicate Succeeded(r: Reply) {
    r.Reply? && IsSuccess(r.status)
  }

  /** Sends one request: it is recorded after the earlier ones and consumes one reply. */
  function Exchange(t: Transport, req: Request): (out: (Reply, Transport))
    ensures out.1.sent == t.sent + [req]
    ensures |t.replies| > 0 ==> out.0 == t.replies[0] && out.1.replies == t.replies[1..]
    ensures |t.replies| == 0 ==> out.0 == IoFailure && out.1.replies == []
  {
    if |t.replies| == 0 then (IoFailure, Transport([], t.sent + [req]))
    else (t.replies[0], Transport(t.replies[1..], t.sent + [req]))
  }
}

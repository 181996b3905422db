/** What the middleware stages see of an HTTP exchange: the request body they
    read and rewrite, the marker the passphrase gate leaves on the request, and
    the calls `reply` makes on the response (index.js:189-193).  The Express
    objects themselves and the `next` continuation are replaced by these values. */
module Exchange {
  import opened Wrappers

  /** A reply payload: a string, or an object of strings (sent as JSON). */
  datatype Msg = Text(text: string) | Structured(fields: map<string, string>)

  /** How a stage ends: `next()`, a reply, or a thrown error. */
  datatype Outcome = Next | Reply(status: int, msg: Msg) | Throws

  /** One call that `reply` makes on the response object. */
  datatype ResponseCall = SetStatus(code: int) | SendJson(obj: map<string, string>) | SendText(body: string)

  type Body = map<string, string>

  /** JavaScript truthiness of `body[key]` for string fields: present and not
      the empty string (index.js:62-65, 85, 110). */
  predicate Present(body: Body, key: string)
  {
    key in body && body[key] != ""
  }

  /** The incoming request: an optional body and the `_passphraseAllowed`
      marker. */
  class Request {
    var body: Option<Body>
    var passphraseAllowed: bool

    constructor (body: Option<Body>)
      ensures this.body == body && !passphraseAllowed
    {
      this.body := body;
      passphraseAllowed := false;
    }
  }

  /** The response, as the record of the calls made on it. */
  class Response {
    var calls: seq<ResponseCall>

    constructor ()
      ensures calls == []
    {
      calls := [];
    }
  }

  /** The calls of `reply(res, status, payload)`: the status first, then `json`
      for an object and `send` for anything else. */
  function ReplyCalls(status: int, payload: Msg): (r: seq<ResponseCall>)
    ensures |r| == 2 && r[0] == SetStatus(status)
    ensures r[1].SendJson? <==> payload.Structured?
  {
    [SetStatus(status), if payload.Structured? then SendJson(payload.fields) else SendText(payload.text)]
  }

  /** What a client receives from a sending call. */
  function Delivered(call: ResponseCall): (m: Option<Msg>)
    ensures call.SetStatus? <==> m == None
  {
    match call
    case SetStatus(_) => None
    case SendJson(obj) => Some(Structured(obj))
    case SendText(body) => Some(Text(body))
  }

  /** The status and the payload `reply` was given are exactly what the client
      receives. */
  lemma ReplyDelivers(status: int, payload: Msg)
    ensures ReplyCalls(status, payload)[0].code == status
    ensures Delivered(ReplyCalls(status, payload)[1]) == Some(payload)
  {
  }

  /** `reply` (index.js:189-193). */
  method SendReply(res: Response, status: int, payload: Msg)
    modifies res
    ensures res.calls == old(res.calls) + ReplyCalls(status, payload)
  {
    res.calls := res.calls + [SetStatus(status)];
    if payload.Structured? {
      res.calls := res.calls + [SendJson(payload.fields)];
    } else {
      res.calls := res.calls + [SendText(payload.text)];
    }
  }

  /** The calls a stage outcome makes on the response: only a reply makes any. */
  function OutcomeCalls(o: Outcome): (r: seq<ResponseCall>)
    ensures r == [] <==> !o.Reply?
  {
    if o.Reply? then ReplyCalls(o.status, o.msg) else []
  }
}

/** One request as the handler sees it, the answers of the two outside
    services it may call, and everything observable that the request leads
    to. No state survives from one request to the next. */
module Exchange {
  import opened Js
  import opened Factory
  import opened Message

  /** `request.body`: something that is not an object, or a record of
      string fields. */
  datatype Payload = NotObject | Fields(fields: map<string, string>)

  /** The parts of a request the handler reads. */
  datatype Request = Request(verb: string, referer: Option<string>, body: Payload)

  /** The method and referer test that both handlers make first; failing it
      throws (400 in the CommonJS handler, `null` in the ES-module one). */
  predicate PassesRequestLine(s: Settings, req: Request) {
    req.verb == "POST" && RefererAccepted(s.origin, req.referer)
  }

  /** What `end` writes: `response.status(code).send(statuses[code])`,
      where the text is missing when the code is not in the table. */
  datatype Response = Response(status: int, text: Option<string>)

  /** The query sent to the CAPTCHA verification endpoint (the client
      address hint aside). */
  datatype VerifyQuery = VerifyQuery(secret: string, response: string)

  /** How the CAPTCHA verification call ends: a result whose `success` is
      true, a result whose `success` is false, or a rejected call. */
  datatype Verification = Verified | Refused | Unreachable

  /** How the provider's `sendEmail(...).promise()` settles. */
  datatype Delivery = Delivered | Failed

  /** Everything a request leads to: the verification call made, the send
      request handed to the provider, and the response written (none when
      a throw escapes from a callback). */
  datatype Outcome = Outcome(
    verification: Option<VerifyQuery>,
    dispatch: Option<SendEmail>,
    response: Option<Response>)

  /** A request answered without calling either service. */
  function Ended(r: Response): Outcome {
    Outcome(None, None, Some(r))
  }

  /** The status the provider callbacks write: 200 when the send request
      is accepted, 500 when it fails. */
  function DeliveryStatus(d: Delivery): (r: int)
    ensures r == 200 <==> d.Delivered?
    ensures r == 500 <==> d.Failed?
  {
    if d.Delivered? then 200 else 500
  }
}

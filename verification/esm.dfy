/** The ES-module variant of the handler: no CAPTCHA, and every rejection
    thrown as `null` to one catch that always writes 400. */
module Esm {
  import opened Js
  import opened Factory
  import opened Message
  import opened Exchange

  /** `statuses[code]` over this variant's `statuses` table, which has no
      entry for 403. */
  function StatusText(code: int): (r: Option<string>)
    ensures r.Some? <==> code in {200, 400, 500}
    ensures code == 200 ==> r == Some("OK")
    ensures code == 400 ==> r == Some("Bad Request")
    ensures code == 500 ==> r == Some("Internal Server Error")
  {
    match code
    case 200 => Some("OK")
    case 400 => Some("Bad Request")
    case 500 => Some("Internal Server Error")
    case _ => None
  }

  /** `end(response, code)`: the status is the code, and the body is its
      reason phrase from the table, which is undefined for any other code. */
  function End(code: int): (r: Response)
    ensures r.status == code
    ensures r.text.Some? <==> code in {200, 400, 500}
    ensures r.text.Some? ==> r.text.value != ""
  {
    Response(code, StatusText(code))
  }

  /** The request handler returned by `create` (whose closure is
      `Factory.Derive` of its options), for one request, given how the
      provider call would end. */
  method Handle(s: Settings, marked: string -> string, req: Request, delivery: Delivery) returns (o: Outcome)
    // no CAPTCHA, and every request is answered
    ensures o.verification.None?
    ensures o.response.Some?
    // each rejection is 400 and calls nothing
    ensures !PassesRequestLine(s, req) ==> o == Ended(End(400))
    ensures req.body.NotObject? ==> o == Ended(End(400))
    ensures req.body.Fields? && !HasContentField(req.body.fields) ==> o == Ended(End(400))
    ensures o.dispatch.None? ==> o == Ended(End(400))
    // the provider call
    ensures o.dispatch.Some? <==>
      PassesRequestLine(s, req) && req.body.Fields? && HasContentField(req.body.fields)
    ensures o.dispatch.Some? ==> o.dispatch.value.client == s.ses
    ensures o.dispatch.Some? ==> ComposedFrom(s, marked, req.body.fields, o.dispatch.value.params)
    ensures o.dispatch.Some? ==> o.response == Some(End(DeliveryStatus(delivery)))
    // the written status is always one of the table's, never 403
    ensures o.response.value.status in {200, 400, 500}
    ensures o.response.value.text.Some?
  {
    if req.verb != "POST" || !RefererAccepted(s.origin, req.referer) {
      return Ended(End(400));
    }
    if req.body.NotObject? {
      return Ended(End(400));
    }
    var params := Compose(s, marked, req.body.fields);
    if params.None? {
      return Ended(End(400));
    }
    var call := SendEmail(s.ses, params.value);
    o := Outcome(None, Some(call), Some(End(DeliveryStatus(delivery))));
  }
}

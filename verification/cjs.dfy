/** The CommonJS variant of the handler: optional reCAPTCHA verification,
    rejections thrown as 400 or 403 and written by the single catch, and
    the status of the CAPTCHA and provider callbacks written from those
    callbacks. */
module Cjs {
  import opened Js
  import opened Factory
  import opened Message
  import opened Exchange

  /** `statuses[code]` over the `statuses` table: the fixed phrase of each of the four codes, and
      nothing for any other code. */
  function StatusText(code: int): (r: Option<string>)
    ensures r.Some? <==> code in {200, 400, 403, 500}
    ensures code == 200 ==> r == Some("OK")
    ensures code == 400 ==> r == Some("Bad Request")
    ensures code == 403 ==> r == Some("Forbidden")
    ensures code == 500 ==> r == Some("Internal Server Error")
  {
    match code
    case 200 => Some("OK")
    case 400 => Some("Bad Request")
    case 403 => Some("Forbidden")
    case 500 => Some("Internal Server Error")
    case _ => None
  }

  /** `end(response, code)`: the status is the code, and the body is its
      reason phrase from the table, which is undefined for any other code. */
  function End(code: int): (r: Response)
    ensures r.status == code
    ensures r.text.Some? <==> code in {200, 400, 403, 500}
    ensures r.text.Some? ==> r.text.value != ""
  {
    Response(code, StatusText(code))
  }

  /** The handler's closure: the shared derivations and the CAPTCHA secret,
      present exactly when CAPTCHA verification is on. */
  datatype Handler = Handler(settings: Settings, captcha: Option<string>)

  /** `create`: CAPTCHA verification is on exactly when the `recaptcha`
      option is truthy, and then that option is the secret. */
  function Create(o: Options): (h: Handler)
    ensures h.settings == Derive(o)
    ensures h.captcha.Some? <==> Truthy(o.recaptcha)
    ensures h.captcha.Some? ==> h.captcha.value == o.recaptcha.value && h.captcha.value != ""
  {
    Handler(Derive(o), if Truthy(o.recaptcha) then o.recaptcha else None)
  }

  /** The CAPTCHA field test as written, `A && B || C`, which groups as
      `(RECAPTCHA && !has recaptcha) || !body.recaptcha`; it throws 403. */
  predicate CaptchaFieldRejects(captchaOn: bool, fields: map<string, string>) {
    (captchaOn && "recaptcha" !in fields) || !TruthyField(fields, "recaptcha")
  }

  /** Because of that grouping the CAPTCHA switch plays no part: every body
      without a non-empty `recaptcha` field is refused, with CAPTCHA on or off. */
  lemma CaptchaFieldIgnoresSwitch(captchaOn: bool, fields: map<string, string>)
    ensures CaptchaFieldRejects(captchaOn, fields) <==> !TruthyField(fields, "recaptcha")
    ensures !captchaOn && "recaptcha" !in fields ==> CaptchaFieldRejects(captchaOn, fields)
  {
  }

  /** A request that gets past every synchronous check before `send` or the
      verification call. */
  predicate PassesChecks(h: Handler, req: Request) {
    && PassesRequestLine(h.settings, req)
    && req.body.Fields?
    && !CaptchaFieldRejects(h.captcha.Some?, req.body.fields)
  }

  /** How `send` ends: by throwing a status code, or by handing a send
      request to the provider, whose callbacks then write the response. */
  datatype SendResult = Threw(code: int) | Dispatched(call: SendEmail, response: Response)

  /** `send`: throws 400 when the body has no content key; otherwise
      dispatches the composed request on a client built from the provider
      configuration and answers 200 or 500 as the provider succeeds or fails. */
  method Send(h: Handler, marked: string -> string, fields: map<string, string>, delivery: Delivery)
    returns (r: SendResult)
    ensures r.Threw? <==> !HasContentField(fields)
    ensures r.Threw? ==> r.code == 400
    ensures r.Dispatched? ==> r.call.client == h.settings.ses
    ensures r.Dispatched? ==> ComposedFrom(h.settings, marked, fields, r.call.params)
    ensures r.Dispatched? ==> r.response.status == DeliveryStatus(delivery)
    ensures r.Dispatched? ==> r.response.text == StatusText(r.response.status)
  {
    var params := Compose(h.settings, marked, fields);
    if params.None? {
      return Threw(400);
    }
    var call := SendEmail(h.settings.ses, params.value);
    r := Dispatched(call, End(DeliveryStatus(delivery)));
  }

  /** The request handler returned by `create`, for one request, given how
      the verification call and the provider call would end. */
  method Handle(h: Handler, marked: string -> string, req: Request, verification: Verification, delivery: Delivery)
    returns (o: Outcome)
    // rejections before any outside call
    ensures !PassesRequestLine(h.settings, req) ==> o == Ended(End(400))
    ensures PassesRequestLine(h.settings, req) && req.body.NotObject? ==> o == Ended(End(400))
    ensures PassesRequestLine(h.settings, req) && req.body.Fields? && CaptchaFieldRejects(h.captcha.Some?, req.body.fields)
      ==> o == Ended(End(403))
    // the verification call
    ensures o.verification.Some? <==> PassesChecks(h, req) && h.captcha.Some?
    ensures o.verification.Some? ==>
      o.verification.value == VerifyQuery(h.captcha.value, req.body.fields["recaptcha"])
    ensures o.verification.Some? && verification.Refused? ==> o.dispatch.None? && o.response == Some(End(403))
    ensures o.verification.Some? && verification.Unreachable? ==> o.dispatch.None? && o.response == Some(End(500))
    // a body without content
    ensures PassesChecks(h, req) && h.captcha.None? && !HasContentField(req.body.fields) ==> o == Ended(End(400))
    ensures o.response.None? <==>
      PassesChecks(h, req) && h.captcha.Some? && verification.Verified? && !HasContentField(req.body.fields)
    // the provider call
    ensures o.dispatch.Some? <==>
      && PassesChecks(h, req)
      && (h.captcha.None? || verification.Verified?)
      && HasContentField(req.body.fields)
    ensures o.dispatch.Some? ==> o.dispatch.value.client == h.settings.ses
    ensures o.dispatch.Some? ==> ComposedFrom(h.settings, marked, req.body.fields, o.dispatch.value.params)
    ensures o.dispatch.Some? ==> o.response == Some(End(DeliveryStatus(delivery)))
    // every written status is one of the table's
    ensures o.response.Some? ==> o.response.value.status in {200, 400, 403, 500}
    ensures o.response.Some? ==> o.response.value.text.Some?
  {
    if req.verb != "POST" || !RefererAccepted(h.settings.origin, req.referer) {
      return Ended(End(400));
    }
    if req.body.NotObject? {
      return Ended(End(400));
    }
    var fields := req.body.fields;
    if (h.captcha.Some? && "recaptcha" !in fields) || !TruthyField(fields, "recaptcha") {
      return Ended(End(403));
    }
    if h.captcha.Some? {
      var query := VerifyQuery(h.captcha.value, fields["recaptcha"]);
      match verification
      case Verified =>
        // `send` runs inside the verification callback, outside the try:
        // its throw is never caught and no response is written
        var sent := Send(h, marked, fields, delivery);
        match sent {
          case Threw(_) => o := Outcome(Some(query), None, None);
          case Dispatched(call, response) => o := Outcome(Some(query), Some(call), Some(response));
        }
      case Refused =>
        o := Outcome(Some(query), None, Some(End(403)));
      case Unreachable =>
        o := Outcome(Some(query), None, Some(End(500)));
    } else {
      var sent := Send(h, marked, fields, delivery);
      match sent
      case Threw(code) => o := Ended(End(code));
      case Dispatched(call, response) => o := Outcome(None, Some(call), Some(response));
    }
  }
}

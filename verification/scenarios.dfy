/** Clients of the two handlers: concrete submissions whose outcome follows
    from the handlers' contracts alone. */
module Scenarios {
  import opened Js
  import opened Factory
  import opened Message
  import opened Exchange
  import Cjs
  import Esm

  /** A form posted from a page of the configured site with only a `text`
      field. The ES-module handler sends it with a plain-text part, no HTML
      part, the placeholder subject and no reply-to, and answers 200 "OK"
      once the provider accepts it. The CommonJS handler, with CAPTCHA off,
      refuses the same form with 403 because it has no `recaptcha` field. */
  method PlainTextForm(o: Options, marked: string -> string)
    requires !o.anySite && !Truthy(o.recaptcha)
  {
    var form := map["text" := "hello"];
    var req := Request("POST", Some("https://" + o.site + "/contact"), Fields(form));
    var s := Derive(o);
    var page := "https://" + o.site + "/";
    assert page <= page + "contact";
    assert PassesRequestLine(s, req);
    assert "text" in form && "recaptcha" !in form;

    var e := Esm.Handle(s, marked, req, Delivered);
    assert e.dispatch.Some?;
    var p := e.dispatch.value.params;
    assert p.body.text == Some(Content(s.charset, "hello"));
    assert p.body.html == None;
    assert p.subject.data == NoSubject;
    assert p.replyTo == None;
    assert e.response == Some(Response(200, Some("OK")));

    var h := Cjs.Create(o);
    assert PassesRequestLine(h.settings, req);
    assert Cjs.CaptchaFieldRejects(h.captcha.Some?, form);
    var c := Cjs.Handle(h, marked, req, Verified, Delivered);
    assert c == Ended(Response(403, Some("Forbidden")));
  }

  /** A Markdown form with a reply address: the raw
      Markdown is the plain-text part, its rendering the HTML part. With
      CAPTCHA on and a token that verifies, the CommonJS handler sends it;
      a provider failure is answered 500. */
  method MarkdownForm(o: Options, marked: string -> string)
    requires !o.anySite && Truthy(o.recaptcha)
  {
    var form := map["md" := "**hi**", "from" := "a@b.com", "recaptcha" := "token"];
    var req := Request("POST", Some("https://" + o.site + "/"), Fields(form));
    var h := Cjs.Create(o);
    assert PassesRequestLine(h.settings, req);
    assert "md" in form && "text" !in form && "from" in form && form["md"] == "**hi**";
    assert TruthyField(form, "recaptcha") && form["recaptcha"] == "token";
    assert Cjs.PassesChecks(h, req);
    var c := Cjs.Handle(h, marked, req, Verified, Failed);
    assert c.verification == Some(VerifyQuery(o.recaptcha.value, "token"));
    assert c.dispatch.Some?;
    var p := c.dispatch.value.params;
    assert p.body.text == Some(Content(h.settings.charset, "**hi**"));
    assert p.body.html == Some(Content(h.settings.charset, marked("**hi**")));
    assert p.replyTo == Some(["a@b.com"]);
    assert DeliveryStatus(Failed) == 500;
    assert c.response == Some(Cjs.End(500));
    assert c.response == Some(Response(500, Some("Internal Server Error")));
  }

  /** With CAPTCHA on, an empty form with a token is verified first; when
      the token verifies, the throw for the missing content escapes the
      callback and no response is written. When it does not, 403. */
  method EmptyFormWithCaptcha(o: Options, marked: string -> string)
    requires !o.anySite && Truthy(o.recaptcha)
  {
    var req := Request("POST", Some("https://" + o.site + "/"), Fields(map["recaptcha" := "token"]));
    var h := Cjs.Create(o);
    var verified := Cjs.Handle(h, marked, req, Verified, Delivered);
    assert verified.response == None && verified.dispatch == None;
    var refused := Cjs.Handle(h, marked, req, Refused, Delivered);
    assert refused.response == Some(Response(403, Some("Forbidden")));

    var e := Esm.Handle(Derive(o), marked, req, Delivered);
    assert e == Ended(Response(400, Some("Bad Request")));
  }
}

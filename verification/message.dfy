/** The mail provider's send request that the handler builds from a
    submitted form body (`params` in the handler). */
module Message {
  import opened Js
  import opened Factory

  /** A `{Charset, Data}` pair. */
  datatype Content = Content(charset: string, data: string)

  /** `Body`: an optional plain-text part and an optional HTML part. */
  datatype Body = Body(text: Option<Content>, html: Option<Content>)

  /** `params`: Source, Destination.ToAddresses, Message.Body,
      Message.Subject and the optional ReplyToAddresses. */
  datatype Params = Params(
    source: string,
    toAddresses: seq<string>,
    body: Body,
    subject: Content,
    replyTo: Option<seq<string>>)

  /** One `sendEmail(params)` call on a client built from `client`. */
  datatype SendEmail = SendEmail(client: SesConfig, params: Params)

  const NoSubject := "No Subject"

  /** Whether the body has at least one of the keys that carry content. */
  predicate HasContentField(fields: map<string, string>) {
    "text" in fields || "html" in fields || "md" in fields
  }

  /** `(body.subject || '').trim() || 'No Subject'`: the subject is never
      empty and never starts or ends with white space. */
  function SubjectLine(fields: map<string, string>): (r: string)
    ensures "subject" in fields && Trim(fields["subject"]) != "" ==> r == Trim(fields["subject"])
    ensures "subject" !in fields || AllWhiteSpace(fields["subject"]) ==> r == NoSubject
    ensures r != "" && Trim(r) == r
  {
    var raw := if TruthyField(fields, "subject") then fields["subject"] else "";
    var trimmed := Trim(raw);
    TrimEmptyIff(raw);
    TrimIdempotent(raw);
    if trimmed != "" then trimmed else TrimOfTrimmed(NoSubject); NoSubject
  }

  /** What a send request composed from `fields` is: the configured sender
      and recipients; the plain-text part from `text`, else the raw `md`;
      the HTML part from `md` rendered by `marked`, else `html`; every part
      and the subject tagged with the configured charset; and a reply-to
      list holding `from` exactly when the body has that key. */
  ghost predicate ComposedFrom(s: Settings, marked: string -> string, fields: map<string, string>, p: Params) {
    && p.source == s.source
    && p.toAddresses == s.destination
    && p.subject == Content(s.charset, SubjectLine(fields))
    && ("text" in fields ==> p.body.text == Some(Content(s.charset, fields["text"])))
    && ("text" !in fields && "md" in fields ==> p.body.text == Some(Content(s.charset, fields["md"])))
    && ("text" !in fields && "md" !in fields ==> p.body.text == None)
    && ("md" in fields ==> p.body.html == Some(Content(s.charset, marked(fields["md"]))))
    && ("md" !in fields && "html" in fields ==> p.body.html == Some(Content(s.charset, fields["html"])))
    && ("md" !in fields && "html" !in fields ==> p.body.html == None)
    && ("from" in fields ==> p.replyTo == Some([fields["from"]]))
    && ("from" !in fields ==> p.replyTo == None)
  }

  /** The composition rules pin down one send request for each body. */
  lemma ComposedFromUnique(s: Settings, marked: string -> string, fields: map<string, string>, p: Params, q: Params)
    requires ComposedFrom(s, marked, fields, p) && ComposedFrom(s, marked, fields, q)
    ensures p == q
  {
    assert p.body == q.body;
  }

  /** A composed request from a body with a content key carries at least
      one part, and a plain-text part unless `html` is the only content key. */
  lemma ComposedHasPart(s: Settings, marked: string -> string, fields: map<string, string>, p: Params)
    requires HasContentField(fields) && ComposedFrom(s, marked, fields, p)
    ensures p.body.text.Some? || p.body.html.Some?
    ensures p.body.text.None? <==> ("text" !in fields && "md" !in fields)
  {
  }

  /** The body of `send` up to the provider call: the content check that
      throws when no content key is present, then `Body` and `params`
      filled in field by field. `None` is the throw. */
  method Compose(s: Settings, marked: string -> string, fields: map<string, string>) returns (r: Option<Params>)
    ensures r.None? <==> !HasContentField(fields)
    ensures r.Some? ==> ComposedFrom(s, marked, fields, r.value)
  {
    var withText := "text" in fields;
    var withHtml := "html" in fields;
    var withMd := "md" in fields;
    if !(withText || withHtml || withMd) {
      return None;
    }
    var body := Body(None, None);
    var params := Params(s.source, s.destination, body, Content(s.charset, SubjectLine(fields)), None);
    if withText {
      body := body.(text := Some(Content(s.charset, fields["text"])));
    }
    if withMd {
      var md := fields["md"];
      body := body.(html := Some(Content(s.charset, marked(md))));
      if !withText {
        body := body.(text := Some(Content(s.charset, md)));
      }
    } else if withHtml {
      body := body.(html := Some(Content(s.charset, fields["html"])));
    }
    if "from" in fields {
      params := params.(replyTo := Some([fields["from"]]));
    }
    params := params.(body := body);
    return Some(params);
  }
}

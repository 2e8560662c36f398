/** The configuration that `create` receives and the values it derives from
    it once, which every request served by the returned handler reads. */
module Factory {
  import opened Js

  /** `to`: either an array of addresses or one comma-separated string. */
  datatype Recipients = AddressArray(addresses: seq<string>) | AddressText(text: string)

  /** The object passed to `create`. Optional strings are `Option`s;
      `anySite` and `log` are the truth values of those options. */
  datatype Options = Options(
    to: Recipients,
    site: string,
    sender: string,
    region: string,
    accessKeyId: string,
    secretAccessKey: string,
    anySite: bool,
    apiVersion: Option<string>,
    charset: Option<string>,
    log: bool,
    recaptcha: Option<string>,
    senderReply: Option<string>)

  /** The referer test: `/./` when any site is accepted, otherwise the
      escaped literal `https://{site}/` anchored at the start, which is a
      literal prefix test. */
  datatype OriginRule = AnyOrigin | OriginPrefix(prefix: string)

  /** The configuration handed to the mail provider's client. */
  datatype SesConfig = SesConfig(apiVersion: string, region: string, accessKeyId: string, secretAccessKey: string)

  /** What the returned handler closes over (the CAPTCHA switch aside). */
  datatype Settings = Settings(
    log: bool,
    charset: string,
    destination: seq<string>,
    source: string,
    origin: OriginRule,
    ses: SesConfig)

  const DefaultCharset := "UTF-8"
  const DefaultApiVersion := "2010-12-01"
  const DefaultReplyName := "no-reply"

  /** The sender mailbox `"{sender}" <{local}@{site}>`. */
  function SourceAddress(sender: string, local: string, site: string): (r: string)
    ensures |r| == |sender| + |local| + |site| + 6
    ensures r[..|sender| + 4] == "\"" + sender + "\" <"
    ensures r[|sender| + 4..|r| - |site| - 2] == local
    ensures r[|r| - |site| - 2..] == "@" + site + ">"
  {
    "\"" + sender + "\" <" + local + "@" + site + ">"
  }

  /** `isArray(to) ? to : to.split(...)`. */
  function Destination(to: Recipients): (r: seq<string>)
    ensures to.AddressArray? ==> r == to.addresses
    ensures to.AddressText? ==> r == SplitAddressList(to.text)
    ensures to.AddressText? ==> |r| == CommaCount(to.text) + 1
  {
    match to
    case AddressArray(list) => list
    case AddressText(text) =>
      SplitAddressListCount(text);
      SplitAddressList(text)
  }

  /** The derivations at the top of `create`. */
  function Derive(o: Options): (s: Settings)
    ensures s.log == o.log
    ensures s.charset != "" && (Truthy(o.charset) ==> s.charset == o.charset.value)
    ensures !Truthy(o.charset) ==> s.charset == DefaultCharset
    ensures o.to.AddressArray? ==> s.destination == o.to.addresses
    ensures o.to.AddressText? ==> s.destination == SplitAddressList(o.to.text)
    ensures o.to.AddressText? ==> |s.destination| == CommaCount(o.to.text) + 1
    ensures s.source == SourceAddress(o.sender, OrDefault(o.senderReply, DefaultReplyName), o.site)
    ensures s.origin.AnyOrigin? <==> o.anySite
    ensures !o.anySite ==> s.origin.prefix == "https://" + o.site + "/"
    ensures s.ses.apiVersion != "" && (Truthy(o.apiVersion) ==> s.ses.apiVersion == o.apiVersion.value)
    ensures !Truthy(o.apiVersion) ==> s.ses.apiVersion == DefaultApiVersion
    ensures s.ses.region == o.region && s.ses.accessKeyId == o.accessKeyId
    ensures s.ses.secretAccessKey == o.secretAccessKey
  {
    Settings(
      o.log,
      OrDefault(o.charset, DefaultCharset),
      Destination(o.to),
      SourceAddress(o.sender, OrDefault(o.senderReply, DefaultReplyName), o.site),
      if o.anySite then AnyOrigin else OriginPrefix("https://" + o.site + "/"),
      SesConfig(OrDefault(o.apiVersion, DefaultApiVersion), o.region, o.accessKeyId, o.secretAccessKey))
  }

  /** The value `RegExp.prototype.test` converts the Referer header to: a
      missing header is `undefined`, which becomes the string "undefined". */
  function RefererText(header: Option<string>): (r: string)
    ensures header.Some? ==> r == header.value
    ensures header.None? ==> r == "undefined"
  {
    match header
    case None => "undefined"
    case Some(text) => text
  }

  /** Whether the referer test passes. `/./` matches any character except a
      line terminator, anywhere in the text. */
  predicate RefererAccepted(rule: OriginRule, header: Option<string>) {
    var text := RefererText(header);
    match rule
    case AnyOrigin => exists i | 0 <= i < |text| :: !IsLineTerminator(text[i])
    case OriginPrefix(prefix) => prefix <= text
  }

  /** With any site accepted, a request without a Referer header passes,
      and a header passes exactly when it holds a character other than a
      line terminator (so an empty header fails). */
  lemma AnyOriginAccepts(header: Option<string>)
    ensures header.None? ==> RefererAccepted(AnyOrigin, header)
    ensures header.Some? ==> (RefererAccepted(AnyOrigin, header) <==>
      !(forall i | 0 <= i < |header.value| :: IsLineTerminator(header.value[i])))
  {
    if header.None? {
      assert !IsLineTerminator(RefererText(header)[0]);
    }
  }

  /** With an exact site, a missing Referer header never passes, and a
      header passes exactly when it starts with `https://{site}/`. */
  lemma ExactOriginAccepts(o: Options, header: Option<string>)
    requires !o.anySite
    ensures header.None? ==> !RefererAccepted(Derive(o).origin, header)
    ensures header.Some? ==> (RefererAccepted(Derive(o).origin, header) <==>
      ("https://" + o.site + "/" <= header.value))
  {
    if header.None? {
      var prefix := "https://" + o.site + "/";
      assert prefix[0] != RefererText(header)[0];
    }
  }
}

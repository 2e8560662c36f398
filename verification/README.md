# Contact-form mail handler, modelled in Dafny

The repository has one piece of logic, the factory `create`, in two
variants. `create` takes a configuration and returns an HTTP handler. The
handler turns a contact-form POST into one send request for a mail provider
(Amazon SES) and answers with a status code and its reason phrase.

- `cjs/index.js` can verify a reCAPTCHA token first. It answers 400 or 403
  with the code each check throws. The callbacks of the outside calls write
  the rest: 403 for a refused token, 500 when verification is unreachable,
  and 200 or 500 as the provider succeeds or fails.
- `esm/index.js` has no CAPTCHA. Every rejection is answered 400.

The model is organised as follows:

- `Js` (js.dfy): the JavaScript semantics the handler relies on.
  - Truthiness of an optional string: absent and `""` are falsy.
  - `x || default`.
  - The ECMAScript white-space and line-terminator sets (ECMA-262 sections
    12.2 and 12.3).
  - `String.prototype.trim`.
  - `String.prototype.split` with the pattern `\s*,\s*`, written as a
    recursive first-comma split over indices.
- `Factory` (factory.dfy): the derivations `create` makes once.
  - The charset and API-version defaults.
  - The recipient list.
  - The `Source` mailbox.
  - The referer rule.
  - The SES client configuration.
  - The referer test, including how `RegExp.test` converts a missing header
    to the string `"undefined"`.
- `Message` (message.dfy): composing `params` from the form fields. It is a
  method that fills `Body` and `params` in step by step. It is proved
  against a declarative predicate, `ComposedFrom`.
- `Exchange` (exchange.dfy): a request as the handler sees it, the answers
  of the two outside services, and the observable `Outcome`. An `Outcome`
  records the verification call made, the send request dispatched, and the
  response written. The response is absent when a throw escapes a callback.
- `Cjs` (cjs.dfy) and `Esm` (esm.dfy): the two handlers as methods whose
  early returns are the `throw`s. The outside services' results are
  parameters.
- `Scenarios` (scenarios.dfy): concrete submissions whose outcome follows
  from the handlers' contracts alone.

Both variants share `Factory.Derive` and `Message.Compose`. The
derivations at `esm/index.js:36-46` are those at `cjs/index.js:41-51`
without the CAPTCHA switch. The composition at `esm/index.js:64-88` is the
one at `cjs/index.js:73-97`. The content check before it throws `null` in
`esm/index.js:61-62` and `400` in `cjs/index.js:70-71`. `Message.Compose`
returns `None` for that throw, and each handler maps it to its own status.

### Behaviour of the code worth knowing

- `create` checks only what it evaluates. A `to` that is missing (neither
  an array nor a string) makes `create` throw a TypeError at
  `to.split(...)`. A missing site, sender, region or credential is not
  rejected: it becomes the text "undefined" in `Source` and the referer
  prefix, or an undefined field in the SES configuration. An empty `to`
  array stays an empty recipient list.
- In the CommonJS handler, the CAPTCHA field test `RECAPTCHA && !has ||
  !body.recaptcha` groups as `(RECAPTCHA && !has) || !body.recaptcha`. So
  even with CAPTCHA off, a body without a non-empty `recaptcha` field is
  answered 403. A form with only `text` gets 403 from that handler and 200
  from the ES-module one. An empty body gets 403 from the CommonJS handler.
  `Scenarios.PlainTextForm` shows both handlers on the same form.
- In the CommonJS handler with CAPTCHA on, `send` runs inside the
  verification callback, outside the `try`. When verification succeeds and
  the body has no content key, the throw is not caught and no response is
  written. The throw becomes an unhandled promise rejection, which by
  default ends the process on Node.js 15 and later.
- The CommonJS catch writes whatever was thrown as the status. For the
  throws the model covers, that is always 400 or 403.
- When any site is accepted, a missing Referer header passes, because
  `RegExp.test` converts it to the text "undefined".
- `to.split(/\s*,\s*/)` removes the white space around each comma but not
  around the whole list: `" a@x, b@y "` gives `" a@x"` and `"b@y "`
  (`Js.SplitRejoins`, `Js.SplitInnerEdgesBare`). Empty pieces are kept:
  `"a,,b"` gives `"a"`, `""` and `"b"`, and `"a,"` gives `"a"` and `""`.
- Neither outside call has a timeout.

## Model

| member | source | states |
|---|---|---|
| Js.OrDefault | cjs/index.js:42 | `o \|\| d`: the option's value when it is truthy, otherwise the default |
| Js.Trim | cjs/index.js:79 | the trimmed text is no longer than the input, and neither starts nor ends with white space |
| Js.TrimDropsWhiteSpace | cjs/index.js:79 | the input is exactly a run of white space, then the trimmed text, then a run of white space: trim removes nothing else |
| Js.TrimEmptyIff | cjs/index.js:79 | trim yields `""` exactly when the whole input is white space |
| Js.TrimIdempotent | cjs/index.js:79 | trimming twice is trimming once |
| Js.TrimOfTrimmed | cjs/index.js:79 | a string without white space at either end is unchanged by trim |
| Js.CommaFrom | cjs/index.js:43 | the comma search from an index: what it finds is a comma at or after that index |
| Js.CommaFromIsFirst | cjs/index.js:43 | the search finds the first comma: no comma lies between the start and what it finds, and none at all when it finds nothing |
| Js.CommaFromAt | cjs/index.js:43 | conversely, a comma with no comma before it (from the start index) is the one the search finds |
| Js.SplitAddressList | cjs/index.js:43 | `to.split(/\s*,\s*/)` is never empty; `Js.SplitRejoins`, `Js.SplitInnerEdgesBare` and `Js.SplitPiecesHaveNoComma` together fix its pieces for every string |
| Js.SplitFromCount | cjs/index.js:43 | the split of the text from any index yields one address more than that text has commas |
| Js.SplitAddressListCount | cjs/index.js:43 | `to.split(/\s*,\s*/)` yields exactly one address more than the string has commas |
| Js.SplitPiecesHaveNoComma | cjs/index.js:43 | no address the split yields contains a comma |
| Js.SplitRejoins | cjs/index.js:43 | for every text, the pieces with blank separators (white space, a comma, white space) between them rebuild the text exactly: the split removes nothing but those separators |
| Js.SplitInnerEdgesBare | cjs/index.js:43 | the split removes all the white space around each comma: no piece but the first starts with white space, and none but the last ends with it |
| Js.SplitFirstIsPrefix | cjs/index.js:43 | the first address is a prefix of the text: the split keeps the leading white space |
| Js.SplitLastIsSuffix | cjs/index.js:43 | the last address is a suffix of the text: the split keeps the trailing white space |
| Js.SplitAtSeparator | cjs/index.js:43 | an address without a comma or outer white space, followed by white space, a comma and white space, comes out of the split whole, and the split goes on where the next address starts |
| Js.SplitJoinedFrom | cjs/index.js:43 | splitting addresses written with any white space on either side of each comma gives the same addresses back, when none is empty, has a comma or has white space at either end |
| Js.SplitJoinedAddresses | cjs/index.js:43 | the same for a whole `to` string: the split of such a written list is the list of addresses |
| Factory.SourceAddress | cjs/index.js:44 | `Source` is `"{sender}" <{local}@{site}>`: the quoted sender, then exactly the local part, then `@{site}>` |
| Factory.Destination | cjs/index.js:43 | an array `to` is kept as-is; a string `to` becomes its split, one address per comma plus one |
| Factory.Derive | cjs/index.js:41-51 | charset defaults to "UTF-8" and API version to "2010-12-01", both never empty; the recipients and `Source` as above; the referer rule is "any" exactly when `anySite` is set, otherwise the prefix `https://{site}/`; region and credentials pass through |
| Factory.RefererText | cjs/index.js:54 | the referer test sees the header's text when present (and "undefined" when absent) |
| Factory.RefererAccepted | cjs/index.js:45-54 | the referer test as a predicate; what it accepts is stated by `Factory.AnyOriginAccepts` and `Factory.ExactOriginAccepts` |
| Factory.AnyOriginAccepts | cjs/index.js:45-54 | with `anySite`, a missing header passes; a present header passes exactly when it holds a character that is not a line terminator |
| Factory.ExactOriginAccepts | cjs/index.js:45-54 | without `anySite`, a missing header fails; a present header passes exactly when it starts with `https://{site}/` |
| Message.SubjectLine | cjs/index.js:79 | the subject is the trimmed `subject` when that is non-empty, and "No Subject" when `subject` is missing or only white space; never empty and never padded |
| Message.ComposedFromUnique | cjs/index.js:73-97 | the composition rules determine one send request per form body |
| Message.ComposedHasPart | cjs/index.js:84-94 | a body with a content key gets at least one part, and a text part unless `html` is its only content key |
| Message.Compose | cjs/index.js:66-97 | throws (None) exactly when none of `text`, `html`, `md` is a key; otherwise the request has the configured Source, recipients and charset, the text part from `text`, else the raw `md`, the HTML part from `marked(md)`, else `html`, and reply-to `[from]` exactly when `from` is a key |
| Cjs.StatusText | cjs/index.js:10-19 | 200 "OK", 400 "Bad Request", 403 "Forbidden", 500 "Internal Server Error", and no phrase for any other code |
| Cjs.End | cjs/index.js:17-19 | the response has the given status; a reason phrase is sent exactly for 200, 400, 403 and 500, and it is never empty |
| Cjs.Create | cjs/index.js:21-51 | the handler closes over `Derive` of the options; CAPTCHA is on exactly when `recaptcha` is truthy, and then that option is the secret |
| Cjs.CaptchaFieldRejects | cjs/index.js:62-63 | the CAPTCHA field test as written, grouped `(A && B) \|\| C`; what it rejects is stated by `Cjs.CaptchaFieldIgnoresSwitch` |
| Cjs.CaptchaFieldIgnoresSwitch | cjs/index.js:62-63 | as written, the CAPTCHA field test rejects exactly the bodies without a non-empty `recaptcha`, whether CAPTCHA is on or off |
| Exchange.DeliveryStatus | cjs/index.js:99-102 | the provider callbacks write 200 exactly when the send request is accepted and 500 exactly when it fails |
| Cjs.Send | cjs/index.js:65-103 | throws 400 exactly when there is no content key; otherwise dispatches the composed request on the configured client and answers 200 or 500 as the provider succeeds or fails |
| Cjs.Handle | cjs/index.js:52-133 | non-POST or bad referer: 400, nothing called; non-object body: 400; CAPTCHA field test fails: 403; verification is called exactly when the checks pass with CAPTCHA on, with the secret and token; refused: 403, unreachable: 500, nothing sent; no response exactly when verification succeeds on a body without content; the provider is called exactly when the checks pass, CAPTCHA is off or verified, and there is content; its result gives 200 or 500; every written status is in the table |
| Esm.StatusText | esm/index.js:8-16 | 200 "OK", 400 "Bad Request", 500 "Internal Server Error", and no phrase for any other code, 403 included |
| Esm.End | esm/index.js:14-16 | the response has the given status; a reason phrase is sent exactly for 200, 400 and 500, so a 403 would go out without one; the phrase is never empty |
| Esm.Handle | esm/index.js:47-98 | never calls a verification service and always answers; every rejection (method, referer, non-object body, no content key) is 400 with nothing sent; the provider is called exactly when all checks pass, with the composed request, and its result gives 200 or 500; the status is never 403 |

## Left out

- The SES client and `sendEmail(...).promise()` are a network call. The model takes their result as the `Delivery` input.
- The reCAPTCHA `post` to the siteverify endpoint is a network call. The model takes its result as the `Verification` input. The `remoteip` hint built from `x-forwarded-for` or `request.connection.remoteAddress` is not modelled; it never affects the outcome.
- `marked` is a third-party renderer. The model takes it as a function parameter `marked: string -> string` and assumes nothing about it.
- `escape-string-regexp` and the RegExp engine are replaced by their meaning here. The escaped anchored literal becomes a prefix test. `/./` becomes "holds a character that is not a line terminator". `/\s*,\s*/` becomes `Js.SplitAddressList`.
- Logging (`console.log`, `console.error`) is left out. The `log` flag is carried in `Settings` and never read, so it cannot change a status.
- Promise scheduling and concurrency between requests are left out. No state is shared, so each request is one sequential evaluation.
- Form fields are string-valued, and the configuration's string fields are present. Non-string values, a `null` body or array bodies, and the TypeErrors they would raise are not modelled. That includes the TypeError the CommonJS catch would pass to `end` as a status.
- A missing `to` makes `create` throw at `to.split(...)`. The model does not capture this, because `Options.to` is always an address array or a string.
- Strings are sequences of Unicode code points, not of UTF-16 code units.

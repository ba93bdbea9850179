# get-latest-version in Dafny

This project models two parts of `get-latest-version`, the library that asks an npm registry which
published version of a package matches a range or dist-tag. The parts come from different revisions
of the repository and neither calls the other, so each has its own module:

- **The retrying JSON fetcher** (`src/http-request.js`, module `HttpRequest`). One logical GET makes
  at most four attempts. Each completed response is classified as a success envelope or a
  `RequestError`: first a 2xx with a non-JSON content type, then a 2xx whose body does not parse,
  then a status of 400 or more. `isRetryableError` decides whether a failure is retried, and the
  wait before attempt k + 1 is `1000 * 2^k` ms. `fetch` is replaced by `fetch: nat -> Outcome`,
  which gives the outcome of attempt number k. `Request` is the loop, written as a method with a
  `while` loop and invariants. It is proved equal to the recursive specification `Run`/`RunFrom`.
  `ValidTrace` describes a run without the loop, and the lemmas show that `Run` satisfies it and
  that only one trace does. The waits are kept in a ghost log instead of sleeping.
- **The version resolver** (`src/index.js`, module `LatestVersion`). It covers option defaulting,
  the package scope, the package URL and the request headers. The URL is built with
  `encodeURIComponent`, and only a leading `%40` is turned back into `@`. `url.resolve` then
  escapes any `'` in it as `%27`. The optional
  `authorization` header is added as a map update. `Resolve` models the `.then` chain: a dist-tag
  first, then an exact version key, then `semver.maxSatisfying`. `TranslateNotFound` models the
  `.catch` that turns a 404 into "doesn't exist". `ShouldRetry` models the retry predicate handed
  to the `get-it` client.

Shared pieces: `MediaType.IsJson` is the content-type test that both files define word for word
(`src/http-request.js:5`, `src/index.js:8`). `Text` holds substring search and decimal rendering.
`UriEncoding` is `encodeURIComponent`: UTF-8, then percent-encoding with upper-case hex digits as in
section 2.1 of RFC 3986. It leaves the RFC 3986 unreserved characters and `!*'()` unescaped, as
ECMAScript does. `Json` holds JSON values and JavaScript truthiness.

The external collaborators are parameters: the transport, `JSON.parse`, `registry-url`,
`registry-auth-token`, `semver.maxSatisfying`, the `get-it` client and `retry.shouldRetry`.

Three behaviours follow the code as written, where one might expect otherwise:

- For a status of 400 or more whose body does not parse, the error body is `null` (`body`), not the
  raw text.
- The backoff `delay` ignores the abort signal.
- `index.js` has no `includeLatest` or `registryUrl` option. When nothing satisfies the range it
  throws rather than returning `undefined`.

## Model

| member | source | states |
|---|---|---|
| `MediaType.IsJson` | src/http-request.js:5 | true exactly when the content type contains `application/json` or `+json` |
| `MediaType.ContentTypeOf` | src/http-request.js:35 | the `content-type` header, or `''` when it is missing |
| `MediaType.MissingContentTypeIsNotJson` | src/http-request.js:116 | a response without a content type is never taken for JSON (`isJson(undefined)` tests `''`) |
| `MediaType.RegistryTypesAreJson` | src/index.js:8 | `application/json; charset=utf-8` and `application/vnd.npm.install-v1+json` count as JSON |
| `Text.ContainsIffOccurs` | src/http-request.js:5 | the left-to-right search finds the literal exactly when it occurs somewhere in the string |
| `Text.NatToDecimal` | src/http-request.js:62 | the status is rendered as a non-empty digit string without a leading zero |
| `Text.DecimalRoundTrip` | src/http-request.js:62 | reading the rendered digits back gives the status code |
| `HttpRequest.NewRequestError` | src/http-request.js:10-22 | a `RequestError` carries the message, `statusCode = status`, `statusMessage = statusText`, the response headers and the given body |
| `HttpRequest.Classify` | src/http-request.js:39-77 | success exactly when the status is below 400 and either at least 300, or JSON-typed with a body that parses; the envelope holds `GET`, the url, the status, the headers and the parsed body (`null` on a parse failure); a 2xx error holds the raw text and any other error the parsed body |
| `HttpRequest.IsRetryableError` | src/http-request.js:97-121 | never retried at attempt 3 or later or for `AbortError`; a transport failure is otherwise retried; a `RequestError` is retried exactly when its status is at least 500, or below 300 with a non-JSON content type |
| `HttpRequest.Request` | src/http-request.js:25-91 | the `for` loop returns the result and the backoff waits of the specification `Run`, and calls `fetch` `AttemptCount(Run)` times; control never leaves the loop without a return or a throw |
| `HttpRequest.CheckResponse` | src/http-request.js:34-77 | the statements of the `try` block after `fetch` return exactly `Classify`'s verdict: the content-type error, the invalid-JSON error, the HTTP error or the success envelope |
| `HttpRequest.TryAttempt` | src/http-request.js:31-78 | one attempt's `try` block gives `Attempt`'s result: a transport failure is caught as it is, a response is checked |
| `HttpRequest.RunEnds` | src/http-request.js:70-84 | a success, or a failure that is not retried or came at the last attempt, ends the run with that result and the waits taken so far |
| `HttpRequest.RetryAdvances` | src/http-request.js:82-88 | a retried failure moves the run on to the next attempt after the wait `retryDelay * 2 ** attempt` |
| `HttpRequest.PrependRetry` | src/http-request.js:82-88 | a retried attempt and its wait, put in front of any valid trace from the next attempt, give a valid trace |
| `HttpRequest.RunFromIsValid` | src/http-request.js:28-89 | the run from any attempt satisfies the loop-free description: earlier attempts failed retryably, the waits are `1000 * 2^k`, and the result is the last attempt's |
| `HttpRequest.RetryStepIsValid` | src/http-request.js:82-88 | a retried failure adds the wait `retryDelay * 2 ** attempt` in front of the rest of the run |
| `HttpRequest.StopStepIsValid` | src/http-request.js:78-84 | a failure that is not retried, or that came at the last attempt, is rethrown with no wait |
| `HttpRequest.RunIsValid` | src/http-request.js:25-91 | the whole run satisfies `ValidTrace` |
| `HttpRequest.ValidTraceIsUnique` | src/http-request.js:28-89 | `ValidTrace` admits only one trace, so it is a complete description of the loop |
| `HttpRequest.AttemptsAtMostFour` | src/http-request.js:28 | `fetch` is called between 1 and `maxRetries + 1 = 4` times |
| `HttpRequest.DelaySchedule` | src/http-request.js:86 | the waits are 1000, 2000 and 4000 ms in that order, one per retry |
| `HttpRequest.AbortEndsRun` | src/http-request.js:102-104 | an `AbortError` attempt is the last; its error surfaces unchanged and no wait follows it |
| `HttpRequest.ClientErrorEndsRun` | src/http-request.js:60-67 | a 4xx attempt is the last; its `HTTP <status>: <statusText>` error surfaces |
| `HttpRequest.ClassifiedRetry` | src/http-request.js:110-120 | a classified failure is retried exactly when attempts remain and its status is 5xx, or 2xx with a non-JSON type; never for a 4xx or for a JSON-typed 2xx that does not parse |
| `HttpRequest.ClassifyOrder` | src/http-request.js:47-67 | a non-JSON 2xx gives the content-type error even when its text parses; a JSON 2xx that does not parse gives `Invalid JSON response`; 400 or more gives the HTTP error, with a `null` body when parsing failed |
| `HttpRequest.RedirectIsSuccess` | src/http-request.js:47-77 | a 3xx succeeds whatever its content type, with a `null` body when the text does not parse |
| `HttpRequest.StatusMessage` | src/http-request.js:62 | the HTTP error message is `HTTP <digits>: <statusText>`, where the digits have no leading zero and denote the status |
| `HttpRequest.OneServerErrorThenSuccess` | src/http-request.js:28-89 | one 500 followed by a good response succeeds after two attempts and one 1000 ms wait |
| `HttpRequest.ServerErrorsExhaustRetries` | src/http-request.js:28-89 | four 500s give four attempts, never a fifth, waits 1000, 2000 and 4000, and the fourth 500's error |
| `HttpRequest.NonJsonExhaustsRetries` | src/http-request.js:47-54 | a 200 that is never JSON-typed is retried until attempts run out, then the content-type error surfaces |
| `UriEncoding.Utf8` | src/index.js:34 | one byte below 0x80, two below 0x800, three below 0x10000, otherwise four; ASCII encodes to itself, and other characters get a lead byte of 0xC0 or more and continuation bytes in 0x80..0xBF |
| `UriEncoding.Utf8RoundTrip` | src/index.js:34 | decoding a character's UTF-8 bytes gives back its code point |
| `UriEncoding.EncodeByte` | src/index.js:34 | a byte stays itself exactly when it is the code of an unescaped ASCII character, and otherwise becomes the `%HH` triplet of its upper-case hex digits |
| `UriEncoding.PercentEncode` | src/index.js:34 | the output has only unescaped characters and `%`, and is one to three times as long as the input |
| `UriEncoding.EncodeUriComponent` | src/index.js:34 | `encodeURIComponent` output has only unescaped characters and `%`, so it has no `/` |
| `UriEncoding.EncodeIsPercentEncodedUtf8` | src/index.js:34 | encoding a string is percent-encoding its UTF-8 bytes |
| `UriEncoding.PercentRoundTrip` | src/index.js:34 | percent-decoding undoes percent-encoding for every byte sequence |
| `UriEncoding.EncodeUriComponentRoundTrip` | src/index.js:34 | decoding `encodeURIComponent(s)` gives the UTF-8 bytes of `s` |
| `UriEncoding.EncodeAppend` | src/index.js:34 | the encoding of a concatenation is the concatenation of the encodings |
| `UriEncoding.EncodeUnescaped` | src/index.js:34 | a string of unescaped characters encodes to itself |
| `UriEncoding.EncodeSlash` | src/index.js:34 | `/` encodes to `%2F` |
| `UriEncoding.LeadingPercent40` | src/index.js:34 | the encoding starts with `%40` exactly when the string starts with `@` |
| `UriEncoding.EscapeApostrophes` | src/index.js:34 | `url.resolve`'s re-parse of the relative part: the result has no `'`, equals the input when the input has none, and holds the same other characters apart from `%`, `2` and `7` |
| `UriEncoding.EscapeApostrophesAppend` | src/index.js:34 | the escaping of a concatenation is the concatenation of the escapings |
| `UriEncoding.EscapedPercentRoundTrip` | src/index.js:34 | escaping `'` as `%27` after percent-encoding leaves the decoded bytes unchanged |
| `LatestVersion.NormaliseOptions` | src/index.js:35-38 | a string gives `{range: it, auth: true}`; an object's own fields win over the defaults `range = 'latest'`, `auth = true` |
| `LatestVersion.RangeStringIsRangeObject` | src/index.js:35-38 | a bare range means the same as `{range}`; no argument means the same as `{}` |
| `LatestVersion.Scope` | src/index.js:32 | a prefix of the name with no `/`, followed in the name by `/` or by nothing |
| `LatestVersion.ScopeIsUnique` | src/index.js:32 | only one prefix has those properties, so they characterise `split('/')[0]` |
| `LatestVersion.EncodePackageName` | src/index.js:34 | the encoded name contains no `/` |
| `LatestVersion.PackageUrl` | src/index.js:34 | the URL is the registry base followed by a single path segment with no `/` and no `'` |
| `LatestVersion.PackageUrlDecodes` | src/index.js:34 | the path segment decodes to the UTF-8 bytes of the package name, so the restored `@` and the `%27` lose nothing |
| `LatestVersion.ScopedNameKeepsAt` | src/index.js:34 | a scoped name keeps its leading `@` and the rest, `/` included, is encoded |
| `LatestVersion.UnscopedNameIsEncoded` | src/index.js:34 | any other name is plainly `encodeURIComponent`-ed |
| `LatestVersion.AtRestoredOnlyInFront` | src/index.js:34 | the encoded name starts with `@` exactly when the package name does |
| `LatestVersion.ScopedPackageUrl` | src/index.js:34 | `@some-scope/some-library` gives `<base>@some-scope%2Fsome-library` |
| `LatestVersion.ApostropheIsEscaped` | src/index.js:34 | `a'b`, whose `'` survives `encodeURIComponent`, is requested as `<base>a%27b` |
| `LatestVersion.AuthFor` | src/index.js:40 | credentials are looked up for the registry base only when `auth` is set |
| `LatestVersion.BuildHeaders` | src/index.js:43-49 | `accept` is always the fixed value; `authorization` is `<type> <token>` and is present exactly when credentials were found; no other header |
| `LatestVersion.RequestFor` | src/index.js:31-51 | the request goes to the scope's registry URL for the package; it always carries the fixed `accept` header, carries `authorization: <type> <token>` exactly when `auth` is set and a token was found, and no other header |
| `LatestVersion.Resolve` | src/index.js:52-72 | a resolved version is a dist-tag value or a published version; it fails exactly when there is no truthy tag, no truthy version entry and no satisfying version, and then with the no-match error, which has no response |
| `LatestVersion.TagFirst` | src/index.js:56-58 | a truthy dist-tag wins and range matching is not consulted |
| `LatestVersion.ExactVersionSecond` | src/index.js:60-62 | otherwise an exact version key is returned unchanged, without range matching |
| `LatestVersion.RangeMatchLast` | src/index.js:64-71 | otherwise the result is `maxSatisfying` over all version keys, or the no-match error |
| `LatestVersion.TranslateNotFound` | src/index.js:73-79 | a failure whose response has status 404 becomes ``Package `<name>` doesn't exist``; every other failure is unchanged |
| `LatestVersion.GetLatestVersion` | src/index.js:31-80 | a version is returned only from a fetched document, and no 404 failure ever reaches the caller |
| `LatestVersion.NotFoundIsTranslated` | src/index.js:73-79 | a 404 from the registry always reads as "doesn't exist" |
| `LatestVersion.OtherFailuresPropagate` | src/index.js:73-79 | every other request failure reaches the caller unchanged |
| `LatestVersion.DocumentIsResolved` | src/index.js:51-79 | a fetched document gives exactly `Resolve`'s answer, and the no-match error is not translated |
| `LatestVersion.LatestByDefault` | src/index.js:35-58 | with no options, the answer is the `latest` dist-tag |
| `LatestVersion.ShouldRetry` | src/index.js:10-21 | retried when there is no response (read as a 500), on 5xx, or on a 2xx with a non-JSON type; otherwise `retry.shouldRetry` alone decides |

## Left out

- Transport: `fetch` and `response.text()` (`src/http-request.js:32-37`) become the `fetch: nat -> Outcome` parameter. The `get-it` client and its middleware (`src/index.js:23-29`) become the `request` parameter of `GetLatestVersion`. That parameter also stands for `options.request` (`src/index.js:41`).
- `JSON.parse` is an opaque `Option<Json>` supplied with each response. JSON numbers are exact reals.
- `delay`/`setTimeout` is not modelled as time: each wait is a recorded duration. Nothing here observes cancellation during a wait, and neither does the source.
- `debug` logging is observational and left out.
- `registry-url`, `registry-auth-token` and `retry.shouldRetry` are parameters: a function returning a base that ends in `/`, a function returning optional credentials, and a boolean verdict.
- `semver.maxSatisfying` is a parameter. Its only contract is that a result is one of the given versions. It receives the set of version keys, not `Object.keys` in insertion order.
- PackageUrl: models `url.resolve` only for a base ending in `/` and a single path segment, and of its re-parse escaping only `'` to `%27`, the one escaped character `encodeURIComponent` can leave behind. It does not model the names `.` and `..`, which `url.resolve` would treat as dot-segments, nor the normalisation of the base.
- Resolve: takes the response body as already holding `dist-tags` (string values) and `versions` objects. A body without them throws a `TypeError` in the source, and lookups of inherited `Object.prototype` names such as `constructor` are not modelled.
- NormaliseOptions: covers only `range` and `auth`, with `auth` a boolean. It does not model fields set explicitly to `undefined`, which `Object.assign` copies over the defaults.
- ShouldRetry: assumes `err.response`, when present, is an object with a numeric `statusCode`.
- Status codes are natural numbers in the fetcher and integers in the resolver. No fixed-width arithmetic arises.
- `includeLatest`, the `registryUrl` option and returning `undefined` when nothing satisfies are not modelled. `src/index.js` does not implement them, even though the tests and the type declarations mention them.
- `signal` is not an option of `src/index.js`. In `src/http-request.js` it is a parameter of `httpRequest` that only reaches `fetch` (`src/http-request.js:25`, `:32`). The model sees it only through the outcome `TransportFailure("AbortError", …)` of an attempt.
- `test/test.js` (live-registry tests), `eslint.config.js` and `src/index.d.ts` contain no modellable logic.

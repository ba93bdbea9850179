/**
 * `getLatestVersion(pkgName, opts)` of src/index.js: options, the package URL, the request
 * headers, version resolution against the registry document and the 404 translation.
 *
 * The external collaborators are parameters: `registry-url` (scope to registry base),
 * `registry-auth-token` (registry base to credentials), `semver.maxSatisfying`, and the request
 * function (the `get-it` client with its middleware, or `options.request` when the caller gives one).
 */
module LatestVersion {
  import opened Wrappers
  import opened Json
  import MediaType
  import UriEncoding

  const DefaultRange: string := "latest"
  const AcceptHeader: string := "application/vnd.npm.install-v1+json; q=1.0, application/json; q=0.8, */*"

  // ---------------------------------------------------------------------------------------------
  // Options

  /** The second argument: absent, a range string, or an options object with its own fields. */
  datatype OptionsArg =
    | Omitted
    | RangeString(text: string)
    | OptionsObject(range: Option<string>, auth: Option<bool>)

  datatype Options = Options(range: string, auth: bool)

  /**
   * The options the call works with: a bare string is the range, with `auth` on; an object's own
   * fields override the defaults, range `latest` and `auth` on; no argument gives the defaults.
   */
  function NormaliseOptions(opts: OptionsArg): (o: Options)
    ensures opts.RangeString? ==> o.range == opts.text
    ensures opts.OptionsObject? && opts.range.Some? ==> o.range == opts.range.value
    ensures opts.OptionsObject? && opts.auth.Some? ==> o.auth == opts.auth.value
    ensures (opts.Omitted? || (opts.OptionsObject? && opts.range.None?)) ==> o.range == DefaultRange
    ensures (opts.Omitted? || opts.RangeString? || (opts.OptionsObject? && opts.auth.None?)) ==> o.auth
  {
    match opts
    case RangeString(text) => Options(text, true)
    case Omitted => Options(DefaultRange, true)
    case OptionsObject(range, auth) => Options(range.GetOr(DefaultRange), auth.GetOr(true))
  }

  /** A bare range string means the same as an object that sets only `range`; no argument, an empty object. */
  lemma RangeStringIsRangeObject(range: string)
    ensures NormaliseOptions(RangeString(range)) == NormaliseOptions(OptionsObject(Some(range), None))
    ensures NormaliseOptions(Omitted) == NormaliseOptions(OptionsObject(None, None))
  {
  }

  // ---------------------------------------------------------------------------------------------
  // Scope and package URL

  /** `pkgName.split('/')[0]`: the text before the first `/`, or the whole name when there is none. */
  function Scope(name: string): (scope: string)
    ensures scope <= name
    ensures '/' !in scope
    ensures |scope| < |name| ==> name[|scope|] == '/'
  {
    if name == [] || name[0] == '/' then "" else [name[0]] + Scope(name[1..])
  }

  /** The three properties of `Scope` determine it: no other prefix has them. */
  lemma ScopeIsUnique(name: string, s: string)
    requires s <= name && '/' !in s && (|s| < |name| ==> name[|s|] == '/')
    ensures s == Scope(name)
  {
  }

  /** A registry base as `registry-url` returns it: always ending in `/`. */
  type DirectoryUrl = u: string | |u| > 0 && u[|u| - 1] == '/' witness "/"

  /** The package name percent-encoded, with an encoded `@` at the very front turned back into `@`. */
  function EncodePackageName(name: string): (e: string)
    ensures '/' !in e
  {
    var encoded := UriEncoding.EncodeUriComponent(name);
    assert forall i :: 0 <= i < |encoded| ==> encoded[i] != '/';
    if |encoded| >= 3 && encoded[..3] == "%40" then "@" + encoded[3..] else encoded
  }

  /**
   * `url.resolve(regUrl, <encoded name>)`, for a base ending in `/`: the encoded name becomes the
   * last path segment, after the re-parse has escaped its apostrophes.
   */
  function PackageUrl(base: DirectoryUrl, name: string): (u: string)
    ensures base <= u
    ensures '/' !in u[|base|..] && '\'' !in u[|base|..]
  {
    var segment := UriEncoding.EscapeApostrophes(EncodePackageName(name));
    var u := base + segment;
    assert u[|base|..] == segment;
    u
  }

  /** The path segment of the package URL decodes to the UTF-8 bytes of the package name. */
  lemma PackageUrlDecodes(base: DirectoryUrl, name: string)
    ensures UriEncoding.PercentDecode(PackageUrl(base, name)[|base|..]) == Some(UriEncoding.Utf8String(name))
  {
    var u := PackageUrl(base, name);
    var segment := UriEncoding.EscapeApostrophes(EncodePackageName(name));
    assert u[|base|..] == segment;
    if |name| > 0 && name[0] == '@' {
      ScopedNameKeepsAt(name);
      var rest := UriEncoding.EncodeUriComponent(name[1..]);
      UriEncoding.EncodeIsPercentEncodedUtf8(name[1..]);
      UriEncoding.EscapedPercentRoundTrip(UriEncoding.Utf8String(name[1..]));
      UriEncoding.EscapeApostrophesAppend("@", rest);
      assert UriEncoding.EscapeApostrophes("@") == "@";
      assert segment == "@" + UriEncoding.EscapeApostrophes(rest);
      assert ("@" + UriEncoding.EscapeApostrophes(rest))[1..] == UriEncoding.EscapeApostrophes(rest);
      assert UriEncoding.Utf8('@') == [0x40];
    } else {
      UnscopedNameIsEncoded(name);
      UriEncoding.EncodeIsPercentEncodedUtf8(name);
      UriEncoding.EscapedPercentRoundTrip(UriEncoding.Utf8String(name));
    }
  }

  /** A name with an apostrophe: `a'b` is requested as `<base>a%27b`. */
  lemma ApostropheIsEscaped(base: DirectoryUrl)
    ensures PackageUrl(base, "a'b") == base + "a%27b"
  {
    UnscopedNameIsEncoded("a'b");
    UriEncoding.EncodeUnescaped("a'b");
    assert UriEncoding.EscapeApostrophes("b") == "b";
    assert UriEncoding.EscapeApostrophes("'b") == "%27" + "b";
    assert UriEncoding.EscapeApostrophes("a'b") == "a" + "%27b";
  }

  /** A scoped name keeps its leading `@`, and the rest (including the `/`) is encoded. */
  lemma ScopedNameKeepsAt(name: string)
    requires |name| > 0 && name[0] == '@'
    ensures EncodePackageName(name) == "@" + UriEncoding.EncodeUriComponent(name[1..])
  {
    UriEncoding.LeadingPercent40(name);
    assert UriEncoding.PercentEncode(UriEncoding.Utf8(name[0])) == "%40";
    var encoded := UriEncoding.EncodeUriComponent(name);
    assert encoded == "%40" + UriEncoding.EncodeUriComponent(name[1..]);
    assert encoded[3..] == UriEncoding.EncodeUriComponent(name[1..]);
  }

  /** A name that does not start with `@` is plainly encoded: no `%40` at the front can arise. */
  lemma UnscopedNameIsEncoded(name: string)
    requires name == [] || name[0] != '@'
    ensures EncodePackageName(name) == UriEncoding.EncodeUriComponent(name)
  {
    UriEncoding.LeadingPercent40(name);
  }

  /** Only the leading `@` is restored: the result starts with `@` exactly when the name does. */
  lemma AtRestoredOnlyInFront(name: string)
    ensures (|EncodePackageName(name)| > 0 && EncodePackageName(name)[0] == '@') <==> (|name| > 0 && name[0] == '@')
  {
    if |name| > 0 && name[0] == '@' {
      ScopedNameKeepsAt(name);
    } else {
      UnscopedNameIsEncoded(name);
      var e := UriEncoding.EncodeUriComponent(name);
      assert |e| > 0 ==> UriEncoding.IsUriSafe(e[0]);
    }
  }

  /** The URL of a scoped package: `@some-scope/some-library` becomes `…/@some-scope%2Fsome-library`. */
  lemma ScopedPackageUrl(base: DirectoryUrl)
    ensures PackageUrl(base, "@some-scope/some-library") == base + "@some-scope%2Fsome-library"
  {
    ExampleEncoding();
    ExampleHasNoApostrophe();
  }

  lemma ExampleEncoding()
    ensures EncodePackageName("@some-scope/some-library") == "@some-scope%2Fsome-library"
  {
    var name := "@some-scope/some-library";
    ScopedNameKeepsAt(name);
    ExampleTail();
    UriEncoding.EncodeAppend("some-scope" + "/", "some-library");
    UriEncoding.EncodeAppend("some-scope", "/");
    ExampleSegments();
    ExampleEncoded();
  }

  /** The literal identities the example needs, kept apart because they are costly to prove in context. */
  lemma ExampleTail()
    ensures "@some-scope/some-library"[1..] == "some-scope" + "/" + "some-library"
  {
  }

  lemma ExampleEncoded()
    ensures "@" + ("some-scope" + "%2F" + "some-library") == "@some-scope%2Fsome-library"
  {
  }

  lemma ExampleHasNoApostrophe()
    ensures UriEncoding.EscapeApostrophes("@some-scope%2Fsome-library") == "@some-scope%2Fsome-library"
  {
    var e := "@some-scope%2Fsome-library";
    assert forall i :: 0 <= i < |e| ==> e[i] != '\'';
  }

  lemma ExampleSegments()
    ensures UriEncoding.EncodeUriComponent("some-scope") == "some-scope"
    ensures UriEncoding.EncodeUriComponent("some-library") == "some-library"
    ensures UriEncoding.EncodeUriComponent("/") == "%2F"
  {
    var scope, library := "some-scope", "some-library";
    assert forall i :: 0 <= i < |scope| ==> UriEncoding.IsUnescaped(scope[i]);
    assert forall i :: 0 <= i < |library| ==> UriEncoding.IsUnescaped(library[i]);
    UriEncoding.EncodeUnescaped(scope);
    UriEncoding.EncodeUnescaped(library);
    UriEncoding.EncodeSlash();
  }

  // ---------------------------------------------------------------------------------------------
  // Headers

  /** What `registry-auth-token` returns when it finds credentials. */
  datatype AuthInfo = AuthInfo(authType: string, token: string)

  /** The credentials for the registry base, looked up only when the `auth` option is set. */
  function AuthFor(options: Options, regUrl: string, authToken: string -> Option<AuthInfo>): (a: Option<AuthInfo>)
    ensures !options.auth ==> a.None?
    ensures options.auth ==> a == authToken(regUrl)
  {
    if options.auth then authToken(regUrl) else None
  }

  /** The fixed `accept` header, plus `authorization: <type> <token>` when credentials were found. */
  function BuildHeaders(authInfo: Option<AuthInfo>): (headers: map<string, string>)
    ensures "accept" in headers && headers["accept"] == AcceptHeader
    ensures "authorization" in headers <==> authInfo.Some?
    ensures authInfo.Some? ==> headers["authorization"] == authInfo.value.authType + " " + authInfo.value.token
    ensures headers.Keys <= {"accept", "authorization"}
  {
    var headers := map["accept" := AcceptHeader];
    if authInfo.Some? then headers["authorization" := authInfo.value.authType + " " + authInfo.value.token]
    else headers
  }

  // ---------------------------------------------------------------------------------------------
  // The registry document and resolution

  /** The parts of the registry document that are read: `dist-tags` and `versions`. */
  datatype Document = Document(distTags: map<string, string>, versions: map<string, Json>)

  /** The `response` of a failed request, as far as this file reads it. */
  datatype ErrorResponse = ErrorResponse(statusCode: int, headers: map<string, string>)

  /** A rejection: its message and, when an HTTP exchange completed, its response. */
  datatype JsError = JsError(message: string, response: Option<ErrorResponse>)

  /** `semver.maxSatisfying`, with the only property relied on: a result is one of the given versions. */
  type MaxSatisfying = f: (set<string>, string) -> Option<string> |
    forall versions, range :: f(versions, range).Some? ==> f(versions, range).value in versions
    witness (versions: set<string>, range: string) => None

  predicate TagHit(doc: Document, range: string) {
    range in doc.distTags && doc.distTags[range] != ""
  }

  predicate VersionHit(doc: Document, range: string) {
    range in doc.versions && Truthy(doc.versions[range])
  }

  function NoMatchError(range: string): JsError {
    JsError("No version exists that satisfies \"" + range + "\"", None)
  }

  /** The `.then` handler: a dist-tag, else an exact version, else the best match for the range. */
  function Resolve(doc: Document, range: string, maxSatisfying: MaxSatisfying): (r: Result<string, JsError>)
    ensures r.Ok? ==> r.value in doc.distTags.Values || r.value in doc.versions
    ensures r.Err? <==> !TagHit(doc, range) && !VersionHit(doc, range) && maxSatisfying(doc.versions.Keys, range).None?
    ensures r.Err? ==> r.error == NoMatchError(range) && r.error.response.None?
  {
    if TagHit(doc, range) then Ok(doc.distTags[range])
    else if VersionHit(doc, range) then Ok(range)
    else match maxSatisfying(doc.versions.Keys, range)
      case Some(version) => Ok(version)
      case None => Err(NoMatchError(range))
  }

  /** A dist-tag wins, and then range matching is never consulted. */
  lemma TagFirst(doc: Document, range: string, f: MaxSatisfying, g: MaxSatisfying)
    requires TagHit(doc, range)
    ensures Resolve(doc, range, f) == Resolve(doc, range, g) == Ok(doc.distTags[range])
  {
  }

  /** An exact published version is returned unchanged when no tag has that name. */
  lemma ExactVersionSecond(doc: Document, range: string, f: MaxSatisfying, g: MaxSatisfying)
    requires !TagHit(doc, range) && VersionHit(doc, range)
    ensures Resolve(doc, range, f) == Resolve(doc, range, g) == Ok(range)
  {
  }

  /** Otherwise the answer is range matching over all published versions. */
  lemma RangeMatchLast(doc: Document, range: string, f: MaxSatisfying)
    requires !TagHit(doc, range) && !VersionHit(doc, range)
    ensures f(doc.versions.Keys, range).Some? ==> Resolve(doc, range, f) == Ok(f(doc.versions.Keys, range).value)
    ensures f(doc.versions.Keys, range).None? ==> Resolve(doc, range, f) == Err(NoMatchError(range))
  {
  }

  // ---------------------------------------------------------------------------------------------
  // The whole call

  /** What is handed to the request function. */
  datatype RegistryRequest = RegistryRequest(url: string, headers: map<string, string>)

  /** The external lookups. */
  datatype Registry = Registry(
    registryUrl: string -> DirectoryUrl,
    authToken: string -> Option<AuthInfo>,
    maxSatisfying: MaxSatisfying
  )

  /** The request built for a package: its URL from the scope's registry, its headers from the options. */
  function RequestFor(pkgName: string, options: Options, reg: Registry): (req: RegistryRequest)
    ensures req.url == PackageUrl(reg.registryUrl(Scope(pkgName)), pkgName)
    ensures "accept" in req.headers && req.headers["accept"] == AcceptHeader
    ensures "authorization" in req.headers <==>
      options.auth && reg.authToken(reg.registryUrl(Scope(pkgName))).Some?
    ensures "authorization" in req.headers ==>
      var a := reg.authToken(reg.registryUrl(Scope(pkgName))).value;
      req.headers["authorization"] == a.authType + " " + a.token
    ensures req.headers.Keys <= {"accept", "authorization"}
  {
    var regUrl := reg.registryUrl(Scope(pkgName));
    RegistryRequest(PackageUrl(regUrl, pkgName), BuildHeaders(AuthFor(options, regUrl, reg.authToken)))
  }

  /** The `.catch` handler: a failure with a 404 response becomes "doesn't exist"; others pass through. */
  function TranslateNotFound(pkgName: string, err: JsError): (e: JsError)
    ensures err.response.Some? && err.response.value.statusCode == 404 ==>
      e == JsError("Package `" + pkgName + "` doesn't exist", None)
    ensures !(err.response.Some? && err.response.value.statusCode == 404) ==> e == err
  {
    if err.response.Some? && err.response.value.statusCode == 404 then
      JsError("Package `" + pkgName + "` doesn't exist", None)
    else err
  }

  /** `getLatestVersion(pkgName, opts)`, with `request` the request function in use. */
  function GetLatestVersion(
    pkgName: string, opts: OptionsArg, reg: Registry, request: RegistryRequest -> Result<Document, JsError>
  ): (r: Result<string, JsError>)
    ensures r.Ok? ==> request(RequestFor(pkgName, NormaliseOptions(opts), reg)).Ok?
    ensures r.Err? ==> r.error.response.None? || r.error.response.value.statusCode != 404
  {
    var options := NormaliseOptions(opts);
    var outcome :=
      match request(RequestFor(pkgName, options, reg))
      case Ok(doc) => Resolve(doc, options.range, reg.maxSatisfying)
      case Err(e) => Err(e);
    match outcome
    case Ok(version) => Ok(version)
    case Err(e) => Err(TranslateNotFound(pkgName, e))
  }

  /** A 404 from the registry always reads as "doesn't exist", whatever the response body. */
  lemma NotFoundIsTranslated(
    pkgName: string, opts: OptionsArg, reg: Registry, request: RegistryRequest -> Result<Document, JsError>
  )
    requires var res := request(RequestFor(pkgName, NormaliseOptions(opts), reg));
      res.Err? && res.error.response.Some? && res.error.response.value.statusCode == 404
    ensures GetLatestVersion(pkgName, opts, reg, request) ==
      Err(JsError("Package `" + pkgName + "` doesn't exist", None))
  {
  }

  /** Every other request failure reaches the caller unchanged. */
  lemma OtherFailuresPropagate(
    pkgName: string, opts: OptionsArg, reg: Registry, request: RegistryRequest -> Result<Document, JsError>
  )
    requires var res := request(RequestFor(pkgName, NormaliseOptions(opts), reg));
      res.Err? && !(res.error.response.Some? && res.error.response.value.statusCode == 404)
    ensures GetLatestVersion(pkgName, opts, reg, request) ==
      Err(request(RequestFor(pkgName, NormaliseOptions(opts), reg)).error)
  {
  }

  /** A fetched document is resolved; a range with no match rejects with the no-match error, untranslated. */
  lemma DocumentIsResolved(
    pkgName: string, opts: OptionsArg, reg: Registry, request: RegistryRequest -> Result<Document, JsError>
  )
    requires request(RequestFor(pkgName, NormaliseOptions(opts), reg)).Ok?
    ensures var doc := request(RequestFor(pkgName, NormaliseOptions(opts), reg)).value;
      GetLatestVersion(pkgName, opts, reg, request) == Resolve(doc, NormaliseOptions(opts).range, reg.maxSatisfying)
  {
  }

  /** With no options, the answer is the `latest` dist-tag. */
  lemma LatestByDefault(pkgName: string, reg: Registry, request: RegistryRequest -> Result<Document, JsError>)
    requires request(RequestFor(pkgName, NormaliseOptions(Omitted), reg)).Ok?
    requires TagHit(request(RequestFor(pkgName, NormaliseOptions(Omitted), reg)).value, "latest")
    ensures GetLatestVersion(pkgName, Omitted, reg, request) ==
      Ok(request(RequestFor(pkgName, NormaliseOptions(Omitted), reg)).value.distTags["latest"])
  {
  }

  // ---------------------------------------------------------------------------------------------
  // Retry predicate of the get-it client

  /**
   * `shouldRetry(err, num, options)`: a failure without a response counts as a 500; 5xx and a 2xx
   * with a non-JSON content type are retried; otherwise `retry.shouldRetry` (given as
   * `libraryVerdict`) decides.
   */
  function ShouldRetry(err: JsError, libraryVerdict: bool): (retry: bool)
    ensures err.response.None? ==> retry
    ensures err.response.Some? && err.response.value.statusCode >= 500 ==> retry
    ensures (err.response.Some? && err.response.value.statusCode < 300 &&
             !MediaType.IsJson(MediaType.ContentTypeOf(err.response.value.headers))) ==> retry
    ensures libraryVerdict ==> retry
    ensures err.response.Some? && 300 <= err.response.value.statusCode < 500 ==> retry == libraryVerdict
    ensures (err.response.Some? && err.response.value.statusCode < 300 &&
             MediaType.IsJson(MediaType.ContentTypeOf(err.response.value.headers))) ==> retry == libraryVerdict
  {
    var response := if err.response.Some? then err.response.value else ErrorResponse(500, map[]);
    libraryVerdict ||
    response.statusCode >= 500 ||
    (response.statusCode < 300 && !MediaType.IsJson(MediaType.ContentTypeOf(response.headers)))
  }
}

/**
 * The retrying JSON fetcher of src/http-request.js.
 *
 * `fetch` is replaced by `fetch: nat -> Outcome`, the outcome of attempt number k (a transport
 * failure, or a completed response whose body text has already been read and offered to
 * `JSON.parse`).  Sleeping is replaced by recording each backoff duration in a ghost log.
 */
module HttpRequest {
  import opened Wrappers
  import opened Json
  import Text
  import MediaType

  /** `maxRetries`: retries after the first attempt. */
  const MaxRetries: nat := 3
  /** `retryDelay`: base backoff in milliseconds. */
  const RetryDelay: nat := 1000

  /** What one call of `fetch` produced. */
  datatype Response = Response(
    status: nat,
    statusText: string,
    headers: map<string, string>,  // names lower-cased, as `Headers.entries()` yields them
    text: string,                  // the raw body, `await response.text()`
    parsed: Option<Json>           // `JSON.parse(text)`, None when it throws
  )

  datatype Outcome =
    | TransportFailure(name: string, message: string)  // fetch rejected (network error, abort, ...)
    | Completed(response: Response)

  /** The body stored on an error: the raw text, or the parsed value (`null` if parsing failed). */
  datatype ErrorBody = RawText(text: string) | ParsedBody(json: Json)

  /** The `response` property of a `RequestError`. */
  datatype Snapshot = Snapshot(
    body: ErrorBody,
    headers: map<string, string>,
    statusCode: nat,
    statusMessage: string
  )

  /** A failure of one attempt: the transport's own error, or a `RequestError` with its snapshot. */
  datatype Failure =
    | Transport(name: string, message: string)
    | RequestError(message: string, response: Snapshot)
  {
    /** The error's `name` property. */
    function Name(): string {
      if Transport? then name else "RequestError"
    }
  }

  /** The value `httpRequest` resolves with. */
  datatype Envelope = Envelope(
    body: Json,
    headers: map<string, string>,
    requestMethod: string,  // the envelope's `method` property
    statusCode: nat,
    statusMessage: string,
    url: string
  )

  /** `new RequestError(message, response, headers, body)`. */
  function NewRequestError(message: string, r: Response, body: ErrorBody): (e: Failure)
    ensures e.RequestError? && e.message == message && e.Name() == "RequestError"
    ensures e.response.statusCode == r.status && e.response.statusMessage == r.statusText
    ensures e.response.headers == r.headers && e.response.body == body
  {
    RequestError(message, Snapshot(body, r.headers, r.status, r.statusText))
  }

  /** The parsed body, or JavaScript `null` (JNull) when the text did not parse. */
  function BodyOf(r: Response): Json {
    if r.parsed.Some? then r.parsed.value else JNull
  }

  function ContentTypeError(r: Response): Failure {
    NewRequestError("Expected JSON content-type, got: " + MediaType.ContentTypeOf(r.headers), r, RawText(r.text))
  }

  function InvalidJsonError(r: Response): Failure {
    NewRequestError("Invalid JSON response", r, RawText(r.text))
  }

  function HttpStatusError(r: Response): Failure {
    NewRequestError("HTTP " + Text.NatToDecimal(r.status) + ": " + r.statusText, r, ParsedBody(BodyOf(r)))
  }

  /** Classification of one completed response, the checks applied in the source's order. */
  function Classify(url: string, r: Response): (res: Result<Envelope, Failure>)
    ensures res.Ok? <==>
      r.status < 400 && (r.status >= 300 || (MediaType.IsJson(MediaType.ContentTypeOf(r.headers)) && r.parsed.Some?))
    ensures res.Ok? ==> res.value == Envelope(BodyOf(r), r.headers, "GET", r.status, r.statusText, url)
    ensures res.Err? ==>
      res.error.RequestError? && res.error.response.statusCode == r.status &&
      res.error.response.statusMessage == r.statusText && res.error.response.headers == r.headers
    ensures res.Err? && r.status < 300 ==> res.error.response.body == RawText(r.text)
    ensures res.Err? && r.status >= 300 ==> res.error.response.body == ParsedBody(BodyOf(r))
  {
    var contentType := MediaType.ContentTypeOf(r.headers);
    if r.status < 300 && !MediaType.IsJson(contentType) then Err(ContentTypeError(r))
    else if r.status < 300 && r.parsed.None? then Err(InvalidJsonError(r))
    else if r.status >= 400 then Err(HttpStatusError(r))
    else Ok(Envelope(BodyOf(r), r.headers, "GET", r.status, r.statusText, url))
  }

  /** The result of one attempt. */
  function Attempt(url: string, o: Outcome): Result<Envelope, Failure> {
    match o
    case TransportFailure(name, message) => Err(Transport(name, message))
    case Completed(r) => Classify(url, r)
  }

  /** `isRetryableError(error, attempt)`. */
  function IsRetryableError(e: Failure, attempt: nat): (retry: bool)
    ensures retry ==> attempt < MaxRetries && e.Name() != "AbortError"
    ensures e.Transport? ==> (retry <==> attempt < MaxRetries && e.name != "AbortError")
    ensures e.RequestError? ==>
      (retry <==>
        attempt < MaxRetries &&
        (e.response.statusCode >= 500 ||
         (e.response.statusCode < 300 && !MediaType.IsJson(MediaType.ContentTypeOf(e.response.headers)))))
  {
    if attempt >= MaxRetries then false
    else if e.Name() == "AbortError" then false
    else if e.Transport? then true
    else
      var statusCode := e.response.statusCode;
      if statusCode >= 500 then true
      else if statusCode < 300 && !MediaType.IsJson(MediaType.ContentTypeOf(e.response.headers)) then true
      else false
  }

  function Pow2(k: nat): nat {
    if k == 0 then 1 else 2 * Pow2(k - 1)
  }

  /** The backoff before attempt number `attempt + 1`: the base delay doubled once per earlier retry. */
  function BackoffDelay(attempt: nat): nat {
    RetryDelay * Pow2(attempt)
  }

  /** A finished run: what the caller gets, and the backoff waits taken, in order. */
  datatype Trace = Trace(result: Result<Envelope, Failure>, waits: seq<nat>)

  /** The loop from attempt number `attempt` on, as a recursive function. */
  function RunFrom(url: string, fetch: nat -> Outcome, attempt: nat): Trace
    requires attempt <= MaxRetries
    decreases MaxRetries - attempt
  {
    match Attempt(url, fetch(attempt))
    case Ok(envelope) => Trace(Ok(envelope), [])
    case Err(e) =>
      if !IsRetryableError(e, attempt) || attempt == MaxRetries then Trace(Err(e), [])
      else
        var rest := RunFrom(url, fetch, attempt + 1);
        Trace(rest.result, [BackoffDelay(attempt)] + rest.waits)
  }

  /** The whole of `httpRequest({url, headers, signal})`. */
  function Run(url: string, fetch: nat -> Outcome): Trace {
    RunFrom(url, fetch, 0)
  }

  /** The number of times `fetch` is called: one more than the number of waits. */
  function AttemptCount(t: Trace): nat {
    |t.waits| + 1
  }

  /**
   * The checks one completed response goes through inside the loop: the content type of a 2xx,
   * then its parse, then a status of 400 or more; anything else is the success envelope.
   */
  method CheckResponse(url: string, response: Response) returns (result: Result<Envelope, Failure>)
    ensures result == Classify(url, response)
  {
    var responseHeaders := response.headers;
    var contentType := MediaType.ContentTypeOf(responseHeaders);
    var text := response.text;
    var body := JNull;
    var parseFailed := false;
    match response.parsed {
      case Some(j) => body := j;
      case None => parseFailed := true;
    }
    if response.status < 300 && !MediaType.IsJson(contentType) {
      var failure := NewRequestError("Expected JSON content-type, got: " + contentType, response, RawText(text));
      assert failure == ContentTypeError(response);
      result := Err(failure);
    } else if response.status < 300 && parseFailed {
      var failure := NewRequestError("Invalid JSON response", response, RawText(text));
      assert failure == InvalidJsonError(response);
      result := Err(failure);
    } else if response.status >= 400 {
      var failure := NewRequestError(
        "HTTP " + Text.NatToDecimal(response.status) + ": " + response.statusText, response, ParsedBody(body));
      assert failure == HttpStatusError(response);
      result := Err(failure);
    } else {
      result := Ok(Envelope(body, responseHeaders, "GET", response.status, response.statusText, url));
    }
  }

  /** The `try` block of one attempt: a transport failure is caught as it is, a response is checked. */
  method TryAttempt(url: string, outcome: Outcome) returns (result: Result<Envelope, Failure>)
    ensures result == Attempt(url, outcome)
  {
    match outcome {
      case TransportFailure(name, message) =>
        result := Err(Transport(name, message));
      case Completed(response) =>
        result := CheckResponse(url, response);
    }
  }

  /**
   * `httpRequest`: the `for` loop over `attempt`, returning on success and throwing when the
   * failure is not retried or the last attempt failed; otherwise waiting and trying again.
   */
  method Request(url: string, fetch: nat -> Outcome)
    returns (result: Result<Envelope, Failure>, ghost waits: seq<nat>, ghost calls: nat)
    ensures result == Run(url, fetch).result
    ensures waits == Run(url, fetch).waits
    ensures calls == AttemptCount(Run(url, fetch))
  {
    var attempt: nat := 0;
    waits := [];
    calls := 0;
    ghost var full := Run(url, fetch);
    while attempt <= MaxRetries
      invariant attempt <= MaxRetries
      invariant calls == attempt == |waits|
      invariant full.result == RunFrom(url, fetch, attempt).result
      invariant full.waits == waits + RunFrom(url, fetch, attempt).waits
      decreases MaxRetries - attempt
    {
      var outcome := fetch(attempt);
      calls := calls + 1;
      var tried := TryAttempt(url, outcome);
      if tried.Ok? {
        result := tried;
        RunEnds(url, fetch, attempt, result, waits, full);
        return;
      }
      var failure := tried.error;
      var shouldRetry := IsRetryableError(failure, attempt);
      if !shouldRetry || attempt == MaxRetries {
        result := Err(failure);
        RunEnds(url, fetch, attempt, result, waits, full);
        return;
      }
      var delayMs := RetryDelay * Pow2(attempt);
      RetryAdvances(url, fetch, attempt, failure, waits, full);
      waits := waits + [delayMs];
      attempt := attempt + 1;
    }
    assert false;
  }

  /** An attempt that succeeds, or fails without a retry, ends the run with its own result. */
  lemma RunEnds(url: string, fetch: nat -> Outcome, attempt: nat, r: Result<Envelope, Failure>, waits: seq<nat>, full: Trace)
    requires attempt <= MaxRetries && Attempt(url, fetch(attempt)) == r
    requires r.Err? ==> !IsRetryableError(r.error, attempt) || attempt == MaxRetries
    requires full.result == RunFrom(url, fetch, attempt).result
    requires full.waits == waits + RunFrom(url, fetch, attempt).waits
    ensures full == Trace(r, waits)
  {
    assert RunFrom(url, fetch, attempt) == Trace(r, []);
    assert waits + [] == waits;
  }

  /** A retried failure moves the run on to the next attempt, after the wait `BackoffDelay(attempt)`. */
  lemma RetryAdvances(url: string, fetch: nat -> Outcome, attempt: nat, e: Failure, waits: seq<nat>, full: Trace)
    requires attempt < MaxRetries && Attempt(url, fetch(attempt)) == Err(e) && IsRetryableError(e, attempt)
    requires full.result == RunFrom(url, fetch, attempt).result
    requires full.waits == waits + RunFrom(url, fetch, attempt).waits
    ensures full.result == RunFrom(url, fetch, attempt + 1).result
    ensures full.waits == (waits + [BackoffDelay(attempt)]) + RunFrom(url, fetch, attempt + 1).waits
  {
    var rest := RunFrom(url, fetch, attempt + 1);
    assert RunFrom(url, fetch, attempt) == Trace(rest.result, [BackoffDelay(attempt)] + rest.waits);
    assert (waits + [BackoffDelay(attempt)]) + rest.waits == waits + ([BackoffDelay(attempt)] + rest.waits);
  }

  // ---------------------------------------------------------------------------------------------
  // An independent description of a run, and what it implies.

  /** Attempt `k` failed with an error the policy retries. */
  ghost predicate Retried(url: string, fetch: nat -> Outcome, k: nat) {
    var res := Attempt(url, fetch(k));
    res.Err? && IsRetryableError(res.error, k)
  }

  /**
   * What a run is, stated without the loop: every attempt before the last failed and was retried,
   * each retry was preceded by the wait `retryDelay * 2^k`, and the caller gets the result of the
   * last attempt, which either succeeded or failed in a way that is not retried (or was the last
   * one allowed).
   */
  ghost predicate ValidTrace(url: string, fetch: nat -> Outcome, t: Trace) {
    var n := |t.waits|;
    && n <= MaxRetries
    && (forall k :: 0 <= k < n ==> t.waits[k] == BackoffDelay(k))
    && (forall k :: 0 <= k < n ==> Retried(url, fetch, k))
    && t.result == Attempt(url, fetch(n))
    && (t.result.Err? ==> !IsRetryableError(t.result.error, n) || n == MaxRetries)
  }

  /** `ValidTrace` for the part of a run that starts at attempt number `a`. */
  ghost predicate ValidTraceFrom(url: string, fetch: nat -> Outcome, a: nat, t: Trace) {
    var n := |t.waits|;
    && a + n <= MaxRetries
    && (forall k :: 0 <= k < n ==> t.waits[k] == BackoffDelay(a + k))
    && (forall k :: a <= k < a + n ==> Retried(url, fetch, k))
    && t.result == Attempt(url, fetch(a + n))
    && (t.result.Err? ==> !IsRetryableError(t.result.error, a + n) || a + n == MaxRetries)
  }

  /** When attempt `a` is retried, a valid run from `a + 1` extends to one from `a`. */
  lemma RetryStepIsValid(url: string, fetch: nat -> Outcome, a: nat)
    requires a < MaxRetries && Retried(url, fetch, a)
    requires ValidTraceFrom(url, fetch, a + 1, RunFrom(url, fetch, a + 1))
    ensures ValidTraceFrom(url, fetch, a, RunFrom(url, fetch, a))
  {
    var rest := RunFrom(url, fetch, a + 1);
    assert RunFrom(url, fetch, a) == Trace(rest.result, [BackoffDelay(a)] + rest.waits);
    PrependRetry(url, fetch, a, rest);
  }

  /** A retried attempt `a` and its wait, put in front of any valid trace from `a + 1`, give a valid trace from `a`. */
  lemma PrependRetry(url: string, fetch: nat -> Outcome, a: nat, rest: Trace)
    requires a < MaxRetries && Retried(url, fetch, a)
    requires ValidTraceFrom(url, fetch, a + 1, rest)
    ensures ValidTraceFrom(url, fetch, a, Trace(rest.result, [BackoffDelay(a)] + rest.waits))
  {
    var w := [BackoffDelay(a)] + rest.waits;
    assert a + |w| == a + 1 + |rest.waits|;
    assert forall k :: 1 <= k < |w| ==> w[k] == rest.waits[k - 1];
  }

  /** When attempt `a` is not retried, the run from `a` is that attempt alone. */
  lemma StopStepIsValid(url: string, fetch: nat -> Outcome, a: nat)
    requires a <= MaxRetries && !(a < MaxRetries && Retried(url, fetch, a))
    ensures ValidTraceFrom(url, fetch, a, RunFrom(url, fetch, a))
  {
    assert RunFrom(url, fetch, a) == Trace(Attempt(url, fetch(a)), []);
  }

  lemma {:induction false} RunFromIsValid(url: string, fetch: nat -> Outcome, a: nat)
    requires a <= MaxRetries
    ensures ValidTraceFrom(url, fetch, a, RunFrom(url, fetch, a))
    decreases MaxRetries - a
  {
    if a < MaxRetries && Retried(url, fetch, a) {
      RunFromIsValid(url, fetch, a + 1);
      RetryStepIsValid(url, fetch, a);
    } else {
      StopStepIsValid(url, fetch, a);
    }
  }

  /** The loop does what the description says. */
  lemma RunIsValid(url: string, fetch: nat -> Outcome)
    ensures ValidTrace(url, fetch, Run(url, fetch))
  {
    RunFromIsValid(url, fetch, 0);
  }

  /** The description fixes the run completely: there is only one trace it admits. */
  lemma {:induction false} ValidTraceIsUnique(url: string, fetch: nat -> Outcome, t1: Trace, t2: Trace)
    requires ValidTrace(url, fetch, t1) && ValidTrace(url, fetch, t2)
    ensures t1 == t2
  {
    var n1, n2 := |t1.waits|, |t2.waits|;
    assert n1 < n2 ==> Retried(url, fetch, n1);
    assert n2 < n1 ==> Retried(url, fetch, n2);
    assert t1.waits == t2.waits;
  }

  /** `httpRequest` calls `fetch` at most `maxRetries + 1 = 4` times. */
  lemma AttemptsAtMostFour(url: string, fetch: nat -> Outcome)
    ensures 1 <= AttemptCount(Run(url, fetch)) <= MaxRetries + 1 == 4
  {
    RunIsValid(url, fetch);
  }

  /** The waits are 1000, 2000 and 4000 ms, in that order, as many of them as there were retries. */
  lemma {:induction false} DelaySchedule(url: string, fetch: nat -> Outcome)
    ensures Run(url, fetch).waits == [1000, 2000, 4000][..|Run(url, fetch).waits|]
  {
    RunIsValid(url, fetch);
    var w := Run(url, fetch).waits;
    assert BackoffDelay(0) == 1000 && BackoffDelay(1) == 2000 && BackoffDelay(2) == 4000;
    assert forall k :: 0 <= k < |w| ==> w[k] == [1000, 2000, 4000][k];
  }

  /** An aborted attempt is the last one: its error surfaces untouched and no wait follows it. */
  lemma AbortEndsRun(url: string, fetch: nat -> Outcome, k: nat, message: string)
    requires k < AttemptCount(Run(url, fetch))
    requires fetch(k) == TransportFailure("AbortError", message)
    ensures AttemptCount(Run(url, fetch)) == k + 1
    ensures Run(url, fetch).result == Err(Transport("AbortError", message))
  {
    RunIsValid(url, fetch);
    assert k < |Run(url, fetch).waits| ==> Retried(url, fetch, k);
  }

  /** An error status below 500 (a 4xx) is never retried: the attempt that got it is the last. */
  lemma ClientErrorEndsRun(url: string, fetch: nat -> Outcome, k: nat, r: Response)
    requires k < AttemptCount(Run(url, fetch))
    requires fetch(k) == Completed(r) && 400 <= r.status < 500
    ensures AttemptCount(Run(url, fetch)) == k + 1
    ensures Run(url, fetch).result == Err(HttpStatusError(r))
  {
    RunIsValid(url, fetch);
    assert k < |Run(url, fetch).waits| ==> Retried(url, fetch, k);
  }

  // ---------------------------------------------------------------------------------------------
  // Classification and the retry policy together.

  /**
   * Which classified failures are retried: a 5xx, or a 2xx whose content type is not JSON.
   * So a 4xx, and a 2xx with a JSON content type but a body that does not parse, are final.
   */
  lemma ClassifiedRetry(url: string, r: Response, attempt: nat)
    requires Classify(url, r).Err?
    ensures IsRetryableError(Classify(url, r).error, attempt) <==>
      attempt < MaxRetries &&
      (r.status >= 500 || (r.status < 300 && !MediaType.IsJson(MediaType.ContentTypeOf(r.headers))))
    ensures 400 <= r.status < 500 ==> !IsRetryableError(Classify(url, r).error, attempt)
    ensures r.status < 300 && MediaType.IsJson(MediaType.ContentTypeOf(r.headers)) ==>
      !IsRetryableError(Classify(url, r).error, attempt)
  {
  }

  /** The checks apply in order: a non-JSON 2xx is a content-type error even when its text parses. */
  lemma ClassifyOrder(url: string, r: Response)
    ensures r.status < 300 && !MediaType.IsJson(MediaType.ContentTypeOf(r.headers)) ==>
      Classify(url, r) == Err(ContentTypeError(r))
    ensures r.status < 300 && MediaType.IsJson(MediaType.ContentTypeOf(r.headers)) && r.parsed.None? ==>
      Classify(url, r) == Err(InvalidJsonError(r))
    ensures r.status >= 400 ==> Classify(url, r) == Err(HttpStatusError(r))
    ensures r.status >= 400 && r.parsed.None? ==> Classify(url, r).error.response.body == ParsedBody(JNull)
  {
  }

  /** A 3xx is a success whatever its content type, with a `null` body when the text did not parse. */
  lemma RedirectIsSuccess(url: string, r: Response)
    requires 300 <= r.status < 400
    ensures Classify(url, r).Ok?
    ensures r.parsed.None? ==> Classify(url, r).value.body == JNull
  {
  }

  /** The `HTTP <status>: <statusText>` message carries the status code in decimal. */
  lemma {:induction false} StatusMessage(r: Response)
    ensures exists digits ::
      && |digits| >= 1
      && (forall i :: 0 <= i < |digits| ==> Text.IsDigit(digits[i]))
      && (|digits| > 1 ==> digits[0] != '0')
      && HttpStatusError(r).message == "HTTP " + digits + ": " + r.statusText
      && Text.DecimalValue(digits) == r.status
  {
    Text.DecimalRoundTrip(r.status);
    var digits := Text.NatToDecimal(r.status);
    assert HttpStatusError(r).message == "HTTP " + digits + ": " + r.statusText;
  }

  // ---------------------------------------------------------------------------------------------
  // Runs with scripted outcomes.

  /** A well-formed JSON 200 response. */
  ghost predicate GoodResponse(o: Outcome) {
    o.Completed? && 200 <= o.response.status < 300 &&
    MediaType.IsJson(MediaType.ContentTypeOf(o.response.headers)) && o.response.parsed.Some?
  }

  /** One 500 and then a good response: success after exactly two attempts and one wait of 1000 ms. */
  lemma OneServerErrorThenSuccess(url: string, fetch: nat -> Outcome)
    requires fetch(0).Completed? && fetch(0).response.status == 500
    requires GoodResponse(fetch(1))
    ensures AttemptCount(Run(url, fetch)) == 2
    ensures Run(url, fetch).waits == [1000]
    ensures Run(url, fetch).result.Ok? && Run(url, fetch).result.value.statusCode == fetch(1).response.status
  {
    assert Retried(url, fetch, 0);
  }

  /** Four 500s: four attempts, never a fifth, waits 1000, 2000, 4000, and the last 500 surfaces. */
  lemma ServerErrorsExhaustRetries(url: string, fetch: nat -> Outcome)
    requires forall k :: 0 <= k <= MaxRetries ==> fetch(k).Completed? && fetch(k).response.status == 500
    ensures AttemptCount(Run(url, fetch)) == 4
    ensures Run(url, fetch).waits == [1000, 2000, 4000]
    ensures Run(url, fetch).result == Err(HttpStatusError(fetch(3).response))
  {
    assert Retried(url, fetch, 0) && Retried(url, fetch, 1) && Retried(url, fetch, 2);
    assert RunFrom(url, fetch, 3) == Trace(Err(HttpStatusError(fetch(3).response)), []);
  }

  /** A 200 served as non-JSON every time is retried until attempts run out, then its error surfaces. */
  lemma NonJsonExhaustsRetries(url: string, fetch: nat -> Outcome)
    requires forall k :: 0 <= k <= MaxRetries ==>
      fetch(k).Completed? && fetch(k).response.status == 200 &&
      !MediaType.IsJson(MediaType.ContentTypeOf(fetch(k).response.headers))
    ensures AttemptCount(Run(url, fetch)) == 4
    ensures Run(url, fetch).result == Err(ContentTypeError(fetch(3).response))
  {
    assert Retried(url, fetch, 0) && Retried(url, fetch, 1) && Retried(url, fetch, 2);
    assert RunFrom(url, fetch, 3) == Trace(Err(ContentTypeError(fetch(3).response)), []);
  }
}

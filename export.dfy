/**
 * export: builds the POST request, records telemetry after the round trip,
 * and turns the response into the error value the caller's retry layer
 * acts on.
 */
module Export {
  import opened Wrappers
  import opened Strconv
  import opened Io
  import opened Http
  import opened ResponseReader
  import opened Classifier
  import opened PartialSuccess
  import opened RequestTelemetry

  /** The error values export returns; no error is None. */
  datatype ExportError =
    | PermanentError(message: string)             // consumererror.NewPermanent: never retried
    | ThrottleRetry(message: string, delay: int)  // exporterhelper.NewThrottleRetry, delay in nanoseconds
    | Transient(message: string)                  // a plain error, retried by the caller's default policy

  /** What one export call returns, and the partial-success warning it logs, if any. */
  datatype Delivery = Delivery(err: Option<ExportError>, warning: Option<Warning>)

  /** The library decoders export hands the body to, none of which is part of this model. */
  datatype Codecs = Codecs(status: StatusDecoder, protoResponse: ResponseDecoder, jsonResponse: ResponseDecoder)

  /** The three headers export sets on every request. */
  function RequestHeaders(apiKey: string): (h: Header)
    ensures h.Keys == {"Content-Type", "Api-Key", "Content-Encoding"}
    ensures HeaderGet(h, "Content-Type") == JSON_CONTENT_TYPE
    ensures HeaderGet(h, "Api-Key") == apiKey
    ensures HeaderGet(h, "Content-Encoding") == "gzip"
    // Header.Set stores exactly one value under each key.
    ensures forall k :: k in h ==> |h[k]| == 1
  {
    map["Content-Type" := [JSON_CONTENT_TYPE], "Api-Key" := [apiKey], "Content-Encoding" := ["gzip"]]
  }

  /**
   * http.NewRequestWithContext(ctx, POST, url, bytes.NewReader(request)) and
   * the header settings: it fails exactly when the url does not parse.
   */
  function NewRequest(url: string, request: seq<byte>, apiKey: string, parseUrl: UrlParser): (r: Result<HttpRequest>)
    ensures r.Ok? <==> parseUrl(url).Ok?
    ensures r.Err? ==> r.error == parseUrl(url).error
    ensures r.Ok? ==> && r.value.verb == "POST"
                      && r.value.url == parseUrl(url).value
                      && r.value.header == RequestHeaders(apiKey)
                      && r.value.body == request
                      && r.value.contentLength == |request|
  {
    match parseUrl(url)
    case Err(e) => Err(e)
    case Ok(u) => Ok(HttpRequest("POST", u, RequestHeaders(apiKey), request, |request|))
  }

  /** What client.Do gave back: a transport error, or a response. */
  datatype TransportResult = DoFailed(reason: string) | Done(resp: Response)

  /** The transport result as values: the response's remaining body bytes and how its stream ends. */
  datatype Exchange =
    | NoResponse(reason: string)
    | Answered(statusCode: int, contentLength: int, header: Header, rest: seq<byte>, ending: IoError)

  ghost function Observe(t: TransportResult): Exchange
    reads if t.Done? then {t.resp.body} else {}
    requires t.Done? ==> t.resp.body.Valid()
  {
    match t
    case DoFailed(reason) => NoResponse(reason)
    case Done(resp) => Answered(resp.statusCode, resp.contentLength, resp.header, resp.body.Rest(), resp.body.ending)
  }

  /** handlePartialSuccessResponse with the metrics handler, as values. */
  function AcceptedDelivery(contentLength: int, rest: seq<byte>, ending: IoError, contentType: string, codecs: Codecs): (d: Delivery)
    requires contentLength >= -1
    // Neither failure here is permanent or a throttle, and an error comes without a warning.
    ensures d.err.Some? ==> d.err.value.Transient? && d.warning.None?
    ensures ReadBody(contentLength, rest, ending).err.Some? ==>
              d == Delivery(Some(Transient(ErrorText(ReadBody(contentLength, rest, ending).err.value))), None)
    ensures ReadBody(contentLength, rest, ending).err.None? ==>
              var h := MetricsPartialSuccessHandler(ReadBody(contentLength, rest, ending).bytes, contentType,
                                                    codecs.protoResponse, codecs.jsonResponse);
              d.warning == h.warning && d.err == (if h.err.Some? then Some(Transient(h.err.value)) else None)
  {
    var b := ReadBody(contentLength, rest, ending);
    if b.err.Some? then Delivery(Some(Transient(ErrorText(b.err.value))), None)
    else
      var h := MetricsPartialSuccessHandler(b.bytes, contentType, codecs.protoResponse, codecs.jsonResponse);
      Delivery(if h.err.Some? then Some(Transient(h.err.value)) else None, h.warning)
  }

  /** What export returns for a url, the transport's result and the library decoders. */
  function ExportOutcome(url: string, parseUrl: UrlParser, x: Exchange, codecs: Codecs): (d: Delivery)
    requires x.Answered? ==> x.contentLength >= -1
    // Before any response: a request that cannot be built is permanent, a transport failure is not.
    ensures parseUrl(url).Err? ==> d == Delivery(Some(PermanentError(parseUrl(url).error)), None)
    ensures parseUrl(url).Ok? && x.NoResponse? ==>
              d == Delivery(Some(Transient("failed to make an HTTP request: " + x.reason)), None)
    // Only a 2xx response logs a warning.
    ensures d.warning.Some? ==> parseUrl(url).Ok? && x.Answered? && 200 <= x.statusCode <= 299
    // A 2xx response goes only to the partial-success path: never a throttle or a permanent error.
    ensures parseUrl(url).Ok? && x.Answered? && 200 <= x.statusCode <= 299 ==>
              d == AcceptedDelivery(x.contentLength, x.rest, x.ending, HeaderGet(x.header, "Content-Type"), codecs)
    ensures parseUrl(url).Ok? && x.Answered? && 200 <= x.statusCode <= 299 ==> d.err.None? || d.err.value.Transient?
    // A retryable code is a throttle carrying the formatted message and the Retry-After delay.
    ensures parseUrl(url).Ok? && x.Answered? && IsRetryableStatusCode(x.statusCode) ==>
              var status := ResponseStatus(x.statusCode, x.contentLength, x.rest, x.ending, codecs.status);
              d == Delivery(Some(ThrottleRetry(ErrorMessage(url, x.statusCode, status),
                                          RetryDelay(RetryAfterSeconds(x.statusCode, HeaderGet(x.header, HEADER_RETRY_AFTER))))),
                            None)
    // Every other code, 1xx and 3xx included, is a permanent error.
    ensures parseUrl(url).Ok? && x.Answered? && !(200 <= x.statusCode <= 299) && !IsRetryableStatusCode(x.statusCode) ==>
              var status := ResponseStatus(x.statusCode, x.contentLength, x.rest, x.ending, codecs.status);
              d == Delivery(Some(PermanentError(ErrorMessage(url, x.statusCode, status))), None)
  {
    match parseUrl(url)
    case Err(e) => Delivery(Some(PermanentError(e)), None)
    case Ok(_) =>
      match x
      case NoResponse(reason) => Delivery(Some(Transient("failed to make an HTTP request: " + reason)), None)
      case Answered(code, contentLength, header, rest, ending) =>
        var status := ResponseStatus(code, contentLength, rest, ending, codecs.status);
        match Classify(url, code, HeaderGet(header, HEADER_RETRY_AFTER), status)
        case Success => AcceptedDelivery(contentLength, rest, ending, HeaderGet(header, "Content-Type"), codecs)
        case Retry(message, seconds) => Delivery(Some(ThrottleRetry(message, RetryDelay(seconds))), None)
        case Permanent(message) => Delivery(Some(PermanentError(message)), None)
  }

  /** handlePartialSuccessResponse(resp, e.metricsPartialSuccessHandler). */
  method HandlePartialSuccessResponse(resp: Response, codecs: Codecs) returns (err: Option<string>, warning: Option<Warning>)
    requires resp.contentLength >= -1 && resp.body.Valid()
    modifies resp.body
    ensures resp.body.Valid()
    ensures var d := AcceptedDelivery(resp.contentLength, old(resp.body.Rest()), resp.body.ending,
                                      HeaderGet(resp.header, "Content-Type"), codecs);
            warning == d.warning && (err.None? <==> d.err.None?) && (err.Some? ==> d.err == Some(Transient(err.value)))
  {
    var bodyBytes, readErr := ReadResponseBody(resp);
    if readErr.Some? {
      return Some(ErrorText(readErr.value)), None;
    }
    var handled := MetricsPartialSuccessHandler(bodyBytes, HeaderGet(resp.header, "Content-Type"),
                                                codecs.protoResponse, codecs.jsonResponse);
    return handled.err, handled.warning;
  }

  /** The part of baseExporter that export uses: the configured API key and the shared telemetry. */
  class Exporter {
    const apiKey: string
    const telemetry: TelemetryBuilder

    constructor (apiKey: string, telemetry: TelemetryBuilder)
      ensures this.apiKey == apiKey && this.telemetry == telemetry
    {
      this.apiKey, this.telemetry := apiKey, telemetry;
    }

    /**
     * export(ctx, url, request, e.metricsPartialSuccessHandler, counter), where
     * `transport` is what client.Do returned for the request and
     * `elapsedNanos` the time the round trip took.
     */
    method Export(url: string, request: seq<byte>, counter: int, parseUrl: UrlParser,
                  transport: TransportResult, elapsedNanos: nat, codecs: Codecs)
      returns (err: Option<ExportError>, warning: Option<Warning>)
      requires telemetry.Valid()
      requires transport.Done? ==> transport.resp.contentLength >= -1 && transport.resp.body.Valid()
      modifies telemetry, if transport.Done? then {transport.resp.body} else {}
      ensures telemetry.Valid()
      ensures Delivery(err, warning) == ExportOutcome(url, parseUrl, old(Observe(transport)), codecs)
      // Telemetry is recorded once per response received, with resp passed as nil.
      ensures telemetry.Snapshot() ==
                if parseUrl(url).Ok? && transport.Done?
                then Recorded(old(telemetry.Snapshot()), elapsedNanos, counter,
                              NewRequest(url, request, apiKey, parseUrl).value, None)
                else old(telemetry.Snapshot())
    {
      var built := NewRequest(url, request, apiKey, parseUrl);
      if built.Err? {
        return Some(PermanentError(built.error)), None;
      }
      var req := built.value;
      if transport.DoFailed? {
        return Some(Transient("failed to make an HTTP request: " + transport.reason)), None;
      }
      var resp := transport.resp;
      telemetry.RecordMetrics(elapsedNanos, counter, req, None);

      if 200 <= resp.statusCode <= 299 {
        var handlerErr;
        handlerErr, warning := HandlePartialSuccessResponse(resp, codecs);
        err := if handlerErr.Some? then Some(Transient(handlerErr.value)) else None;
        return;
      }

      var respStatus := ReadResponseStatus(resp, codecs.status);
      var errString := ErrorMessage(url, resp.statusCode, respStatus);

      if IsRetryableStatusCode(resp.statusCode) {
        // A retry duration of 0 seconds triggers the caller's default backoff policy.
        var retryAfter := 0;
        var isThrottleError := resp.statusCode == STATUS_TOO_MANY_REQUESTS
                               || resp.statusCode == STATUS_SERVICE_UNAVAILABLE;
        var val := HeaderGet(resp.header, HEADER_RETRY_AFTER);
        if isThrottleError && val != "" {
          var seconds := Atoi(val);
          if seconds.Some? {
            retryAfter := seconds.value;
          }
        }
        return Some(ThrottleRetry(errString, RetryDelay(retryAfter))), None;
      }
      return Some(PermanentError(errString)), None;
    }
  }
}

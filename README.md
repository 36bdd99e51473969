# nreventexporter: the OTLP/HTTP response-handling path, in Dafny

This project models the export path of an OpenTelemetry Collector exporter that POSTs metric events, already built and gzip-compressed, to an ingestion endpoint. It proves properties of that model. The path covers:

- building the POST request and its three headers;
- recording the four request counters after the round trip;
- reading at most 64 KiB of the response body;
- classifying the status code: success, throttled retry, or permanent error. The retryable codes come from the "Failures" section of the OpenTelemetry Protocol specification. The delay comes from its "OTLP/HTTP Throttling" section;
- formatting the exact error message;
- extracting the google.rpc.Status from a 4xx/5xx body;
- decoding the partial-success envelope of a 2xx body and warning about rejected data points;
- composing a signal's URL from the base endpoint (`composeSignalURL` in factory.go).

Modules, leaves first:

- `Wrappers`: `Option` (Go's nil) and `Result` (a value or an error text).
- `Strconv`: Go's `strconv.Atoi` and decimal int rendering on a 64-bit platform. Atoi accepts an optional sign, then digits, within int64. `AtoiFormatInt` proves that Atoi reads back every rendered int64.
- `Io`: a response body stream as a class. It holds the bytes it will deliver, the largest chunk one `Read` hands over (short reads), and the error it reports at the end (`EOF` for a clean end). `ReadFull` fills a caller-allocated `array<byte>` in place, as `io.ReadFull` does, and is proved against `ReadFullResult`.
- `Http`: headers (`Header.Get` returns "" when absent), the `url.Parse` boundary, the response and the request.
- `ResponseReader`: `readResponseBody` as a method over a fresh buffer, proved against the function `ReadBody`. It also models `readResponseStatus`.
- `Classifier`: `isRetryableStatusCode`, the error message, the Retry-After delay and the `Outcome` datatype (`Success | Retry(message, seconds) | Permanent(message)`).
- `PartialSuccess`: `metricsPartialSuccessHandler`.
- `RequestTelemetry`: `recordMetrics` as a class with the four counter fields, each a map from attribute set to sum.
- `Export`: request construction, handling of the partial-success response, and `export` itself. `export` is the method `Exporter.Export`, proved against the function `ExportOutcome`.
- `Factory`: `composeSignalURL`.

Inputs the model takes as parameters:

- The result of `client.Do`: either a transport error or a response with its body stream.
- The round-trip time in nanoseconds.
- `url.Parse`: a function from a string to the rendered URL or an error text.
- The protobuf and JSON decoders: functions from bytes to a decoded value or an error text.

Each of these is a parameter because it is I/O, a clock or a library call that is not part of this model. Every function is deterministic by construction, so the same inputs always give the same outcome.

Behaviour of the code worth noting:

- Retry-After is accepted as anything `strconv.Atoi` accepts. A leading sign is allowed, so `-5` gives a delay of -5 seconds. HTTP-date values give 0.
- `time.Duration(retryAfter)*time.Second` is int64 arithmetic. `RetryDelay` models its wrap-around, so more than 9223372036 seconds wraps.
- A body shorter than the read window is returned whole without error whenever the stream ends with EOF. This holds whatever the declared length, not only when it is unknown.
- A stream that ends with `io.ErrUnexpectedEOF` yields a non-nil result, possibly empty, and no error. net/http reports that error for a body cut short of its declared length.
- `readResponseStatus` passes the bytes read to the decoder even when there are none. The decoder is a parameter, so the model neither fixes nor excludes what `proto.Unmarshal` makes of an empty body; it accepts empty input, so a 4xx/5xx response with an empty body gets a non-nil, empty Status.
- The `status_code` attribute is always "0", because `export` passes a nil response to `recordMetrics`.
- The Permanent error branch at the end of `pushMetrics` can never run, because its `err` is never assigned.

## Model

| member | source | states |
|---|---|---|
| `Strconv.Atoi` | exporter.go:177 | Fails on the empty string and on a lone '+' or '-'; any success lies in int64, has only digits after an optional sign, and is negative only after '-'. |
| `Strconv.AtoiSignedDigits` | exporter.go:177 | For an optional '+' or '-' followed by one or more digits, leading zeros included, Atoi gives the signed decimal value exactly when it fits in int64, and fails otherwise. |
| `Strconv.DecimalValueLeadingZero` | exporter.go:177 | A leading '0' leaves the value of a digit run unchanged, so "030" and "30" read the same. |
| `Strconv.FormatInt` | exporter.go:162-164 | The %d rendering is non-empty, starts with '-' exactly for negative values, is otherwise all digits, and has no leading zero: it starts with '0' only for 0. |
| `Strconv.AtoiFormatInt` | exporter.go:177 | Atoi reads back every rendered int64: Atoi(FormatInt(n)) == Some(n). |
| `Io.BodyStream.Read` | exporter.go:219 | One Read copies min(space, chunk, remaining) bytes into the buffer at the offset and leaves the rest of the buffer alone; the stream's ending is reported only when nothing is left. |
| `Io.ReadFullResult` | exporter.go:219 | io.ReadFull reads min(remaining, size) bytes; there is no error exactly when the buffer fills; EOF only when nothing was read; ErrUnexpectedEOF only for a partial read before a clean end. |
| `Io.ReadFull` | exporter.go:218-219 | Filling the buffer in place meets ReadFullResult, and the buffer holds exactly the first n remaining bytes of the stream. |
| `ResponseReader.ReadBody` | exporter.go:204-235 | ContentLength 0 gives (nil, nil). The bytes are a prefix of the stream within the 64 KiB cap and any positive declared length. A stream holding the whole window gives exactly the window. A shorter stream ending with EOF gives all its bytes. An empty stream with EOF gives (nil, nil). Only a non-EOF failure is an error, with a nil result. |
| `ResponseReader.ReadResponseBody` | exporter.go:204-235 | The method over the allocated buffer returns what ReadBody states, consumes nothing when ContentLength is 0, and otherwise consumes min(remaining, maxRead) bytes. |
| `ResponseReader.ResponseStatus` | exporter.go:239-259 | A status is decoded only for codes in [400,599]; a failed body read or a failed decode gives nil; for a 4xx/5xx code whose body reads without error the result is exactly the decoder's result on the bytes read. |
| `ResponseReader.ReadResponseStatus` | exporter.go:239-259 | The method returns ResponseStatus of the stream's state, and reads nothing outside [400,599]. |
| `Classifier.IsRetryableStatusCode` | exporter.go:189-202 | True exactly for 429, 502, 503 and 504; all of them are 4xx or 5xx and include both throttling codes. |
| `Classifier.ErrorMessage` | exporter.go:155-165 | The message starts with "error exporting items, request to <url> responded with HTTP Status Code "; without a status the head is followed by exactly the code's canonical %d rendering (FormatInt). A decoded status only appends ", Message=<m>, Details=<d>" to the status-less message. |
| `Classifier.StatuslessMessageEndsWithCode` | exporter.go:162-164 | Atoi of the status-less message's tail after the fixed head gives back the status code. |
| `Classifier.ErrorMessageDeterminesCode` | exporter.go:155-165 | Two messages for the same url that are equal name the same status code, with or without a decoded status. |
| `Classifier.RetryAfterSeconds` | exporter.go:171-180 | The delay is 0 unless the code is 429 or 503 and Atoi accepts the header, in which case it is Atoi's value; for 502, 504 or an empty header it is 0. |
| `Classifier.RetryDelay` | exporter.go:182 | time.Duration(s)*time.Second stays in int64, equals s * 10^9 when -9223372036 <= s <= 9223372036, and otherwise wraps: it is congruent to s * 10^9 modulo 2^64. |
| `Classifier.Classify` | exporter.go:148-184 | Success exactly for [200,299]; Retry exactly for the retryable codes; Permanent for every other code, 1xx and 3xx included; errors carry ErrorMessage, and a Retry carries RetryAfterSeconds. |
| `PartialSuccess.MetricsPartialSuccessHandler` | exporter.go:272-300 | A nil body or an unknown content type gives nil with no warning. A decode failure for "application/x-protobuf" or "application/json" gives the wrapped error. A decoded envelope gives nil, and a warning with its message and count exactly when the message is non-empty or the rejected count is non-zero. |
| `RequestTelemetry.RequestAttributes` | exporter.go:303-317 | The status_code attribute is "0" for a nil response, and otherwise the code's %d rendering (FormatInt), which Atoi reads back; the endpoint is the request URL and the exporter id is "nreventexporter". |
| `RequestTelemetry.Recorded` | exporter.go:302-322 | Under the request's attributes: one more request sent, count more records, ContentLength more bytes and the whole milliseconds of the duration; every other attribute set is unchanged and the counter invariant is preserved. |
| `RequestTelemetry.TelemetryBuilder.RecordMetrics` | exporter.go:302-322 | The four counter fields become Recorded of their old values, and the invariant is kept. |
| `Export.RequestHeaders` | exporter.go:130-132 | Exactly the headers Content-Type: application/json, Api-Key: <key> and Content-Encoding: gzip, each with exactly one value, as Header.Set stores it. |
| `Export.NewRequest` | exporter.go:125-132 | The request fails exactly when the url does not parse, with the parse error. Otherwise it is a POST to the parsed URL with those headers, the payload as body and its length as ContentLength. |
| `Export.AcceptedDelivery` | exporter.go:261-268 | A 2xx response gives at most a non-permanent error. A body-read failure gives that error with no warning. Otherwise the handler's warning is passed on, and the handler's error, if any, is returned as a non-permanent error with the handler's text. |
| `Export.HandlePartialSuccessResponse` | exporter.go:261-268 | The method that reads the body and calls the metrics handler returns what AcceptedDelivery states. |
| `Export.ExportOutcome` | exporter.go:123-185 | A url that does not parse gives a permanent error. A transport failure gives the wrapped non-permanent error. A 2xx response goes only to the partial-success path. A retryable code gives a throttle with the message and the Retry-After delay. Every other code gives a permanent error with the message. Only 2xx responses can warn. |
| `Export.Exporter.Export` | exporter.go:123-185 | The method's result is ExportOutcome of the transport result as received. Telemetry is recorded exactly once with resp nil when a request was built and a response came back, and is otherwise untouched. |
| `Factory.ComposeSignalUrl` | factory.go:43-59 | An override that parses is returned unchanged. An override that does not parse gives "<name>_endpoint must be a valid URL". No override and no endpoint gives "either endpoint or <name>_endpoint must be specified". Otherwise the call never fails, and the result starts with the endpoint and ends with "/<version>/<name>". |
| `Factory.ComposedUrlJoinsWithOneSlash` | factory.go:53-58 | The URL composed from the endpoint equals the endpoint without its trailing slash, followed by "/<version>/<name>". |

## Left out

- `Start`, `Shutdown`, `ConsumeMetrics` and `Capabilities` (exporter.go:76-98) pass calls through to the wrapped OTLP exporter or build the HTTP client.
- `newExporter` (exporter.go:55-75) is collector setup outside the export path and is not modelled. It rejects a non-empty `MetricsEndpoint` that `url.Parse` refuses, with "endpoint must be a valid URL", and formats the user agent as "<description>/<version> (<GOOS>/<GOARCH>)".
- `pushMetrics` (exporter.go:100-121) depends on `metrictoevent.BuildNREventPayload`, which is not part of this model, and on logging. The payload and its record count are inputs of `Exporter.Export`.
- `NewFactory`, `createDefaultConfig`, `createMetrics` and config.go are collector wiring. `createMetrics` does not match exporter.go: it calls `newExporter` with two arguments instead of four and assigns a `metricsURL` field that does not exist. `oCfg.Endpoint` is not a field of `Config`, so `ComposeSignalUrl` takes the base endpoint as a parameter.
- The HTTP exchange itself (`client.Do`), context cancellation and timeouts are I/O. The transport's result is a parameter.
- gzip is not modelled. The payload is sent as given, with the Content-Encoding header only.
- `fmt.Println`, `logger.Info` and `logger.Debug` are not modelled. The partial-success `logger.Warn` is modelled as a returned `Warning`.
- The deferred `io.CopyN` drain and `Body.Close` (exporter.go:142-146) are resource cleanup. The stream position after `Export` is not stated.
- `proto.Unmarshal`, `UnmarshalProto`, `UnmarshalJSON` and `url.Parse` are library calls. They are function parameters that give a value or an error text.
- The `%v` rendering of `Status.Details` is taken as an opaque string inside `RpcStatus`.
- `httphelper.NewStatusFromMsgAndHTTPCode` is not part of this model. Error values carry the formatted message, not the status it wraps. The texts of `consumererror.NewPermanent` and `exporterhelper.NewThrottleRetry` are not modelled either.
- `time.Now` and `time.Since` are clocks. The round-trip time is an input in nanoseconds.
- Header names are assumed to be stored in canonical form, as net/http stores them. `Header.Get` canonicalisation is not modelled.
- `Io.BodyStream.Read`: does not model a reader that returns bytes and an error from the same call. `io.ReadFull` gives the same result either way.
- `RequestTelemetry` counters are unbounded integer sums. The SDK's int64 counters can wrap, which the model does not capture; `Consistent`'s "no duration is negative" relies on that.
- Concurrent export calls that share the telemetry counters are not modelled. In the model, calls update the counters one after another.

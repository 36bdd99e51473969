/**
 * Classification of a received response in export: success, a throttled
 * retry with a server-suggested delay, or a permanent error, with the
 * exact error message. The retryable codes follow the "Failures" section
 * of the OpenTelemetry Protocol specification for OTLP/HTTP; the delay
 * follows its "OTLP/HTTP Throttling" section, read from the delay-seconds
 * form of Retry-After (section 10.2.3 of RFC 9110).
 */
module Classifier {
  import opened Wrappers
  import opened Strconv
  import opened ResponseReader

  const STATUS_TOO_MANY_REQUESTS := 429     // section 4 of RFC 6585
  const STATUS_BAD_GATEWAY := 502           // section 15.6.3 of RFC 9110
  const STATUS_SERVICE_UNAVAILABLE := 503   // section 15.6.4 of RFC 9110
  const STATUS_GATEWAY_TIMEOUT := 504       // section 15.6.5 of RFC 9110

  const HEADER_RETRY_AFTER := "Retry-After"

  /** isRetryableStatusCode. */
  function IsRetryableStatusCode(code: int): (r: bool)
    ensures r <==> code in {429, 502, 503, 504}
    ensures r ==> 400 <= code <= 599
    ensures IsThrottleStatusCode(code) ==> r
  {
    code == STATUS_TOO_MANY_REQUESTS || code == STATUS_BAD_GATEWAY
    || code == STATUS_SERVICE_UNAVAILABLE || code == STATUS_GATEWAY_TIMEOUT
  }

  /** The codes that say the server is overwhelmed, for which Retry-After is honoured. */
  predicate IsThrottleStatusCode(code: int)
  {
    code == STATUS_TOO_MANY_REQUESTS || code == STATUS_SERVICE_UNAVAILABLE
  }

  /** The message up to the status code. */
  function MessageHead(url: string): string
  {
    "error exporting items, request to " + url + " responded with HTTP Status Code "
  }

  /** What a decoded status adds to the message: nothing when there is none. */
  function StatusSuffix(status: Option<RpcStatus>): (t: string)
    ensures t == [] || t[0] == ','
  {
    match status
    case Some(s) => ", Message=" + s.message + ", Details=" + s.details
    case None => ""
  }

  /** The error message export formats for a failed response. */
  function ErrorMessage(url: string, code: int, status: Option<RpcStatus>): (msg: string)
    ensures MessageHead(url) <= msg
    // Without a status, the head is followed by exactly the code's %d rendering.
    ensures status.None? ==> msg == MessageHead(url) + FormatInt(code)
    // The decoded status, when there is one, only adds a suffix.
    ensures status.Some? ==>
              msg == ErrorMessage(url, code, None) + (", Message=" + status.value.message
                     + ", Details=" + status.value.details)
    decreases status.Some?
  {
    var digits := FormatInt(code);
    var tail := digits + StatusSuffix(status);
    assert status.None? ==> tail == digits;
    MessageHead(url) + tail
  }

  /** A status-less message ends with the code, written so that Atoi reads it back. */
  lemma StatuslessMessageEndsWithCode(url: string, code: int)
    requires MIN_INT64 <= code <= MAX_INT64
    ensures Atoi(ErrorMessage(url, code, None)[|MessageHead(url)|..]) == Some(code)
  {
    assert ErrorMessage(url, code, None)[|MessageHead(url)|..] == FormatInt(code);
    AtoiFormatInt(code);
  }

  /** Every character of a rendered int after the first is a digit. */
  lemma FormatIntTail(n: int, i: int)
    requires 1 <= i < |FormatInt(n)|
    ensures IsDigit(FormatInt(n)[i])
  {
  }

  /** A rendered int followed by a tail starting with ',' (or by nothing) splits in one way only. */
  lemma SplitAfterInt(c1: int, t1: string, c2: int, t2: string)
    requires t1 == [] || t1[0] == ','
    requires t2 == [] || t2[0] == ','
    requires FormatInt(c1) + t1 == FormatInt(c2) + t2
    ensures c1 == c2
  {
    var a, b := FormatInt(c1), FormatInt(c2);
    var m := a + t1;
    if |a| < |b| {
      assert m[|a|] == b[|a|];
      FormatIntTail(c2, |a|);
      assert false;
    } else if |b| < |a| {
      assert m[|b|] == a[|b|];
      FormatIntTail(c1, |b|);
      assert false;
    }
    assert a == m[..|a|] == b;
    FormatIntInjective(c1, c2);
  }

  lemma CancelPrefix(head: string, x1: string, x2: string)
    requires head + x1 == head + x2
    ensures x1 == x2
  {
    assert x1 == (head + x1)[|head|..];
  }

  /** For one url, the message names the status code unambiguously, with or without a status. */
  lemma ErrorMessageDeterminesCode(url: string, c1: int, s1: Option<RpcStatus>, c2: int, s2: Option<RpcStatus>)
    requires ErrorMessage(url, c1, s1) == ErrorMessage(url, c2, s2)
    ensures c1 == c2
  {
    var head := MessageHead(url);
    var x1 := FormatInt(c1) + StatusSuffix(s1);
    var x2 := FormatInt(c2) + StatusSuffix(s2);
    assert ErrorMessage(url, c1, s1) == head + x1;
    assert ErrorMessage(url, c2, s2) == head + x2;
    CancelPrefix(head, x1, x2);
    SplitAfterInt(c1, StatusSuffix(s1), c2, StatusSuffix(s2));
  }

  /**
   * The retry delay in seconds: 0 (the caller's default backoff) unless the
   * code is 429 or 503 and the Retry-After value is one Atoi accepts, which
   * includes a leading sign: "-5" gives -5.
   */
  function RetryAfterSeconds(code: int, retryAfter: string): (seconds: int)
    ensures seconds != 0 ==> IsThrottleStatusCode(code) && Atoi(retryAfter) == Some(seconds)
    ensures IsThrottleStatusCode(code) && Atoi(retryAfter).Some? ==> seconds == Atoi(retryAfter).value
    ensures code == STATUS_BAD_GATEWAY || code == STATUS_GATEWAY_TIMEOUT || retryAfter == "" ==> seconds == 0
    ensures MIN_INT64 <= seconds <= MAX_INT64
  {
    var isThrottleError := code == STATUS_TOO_MANY_REQUESTS || code == STATUS_SERVICE_UNAVAILABLE;
    if isThrottleError && retryAfter != "" then
      match Atoi(retryAfter)
      case Some(s) => s
      case None => 0
    else 0
  }

  const NANOS_PER_SECOND := 1_000_000_000

  /** The largest number of seconds whose time.Duration does not overflow. */
  const MAX_DELAY_SECONDS := 9_223_372_036

  /** Two's-complement wrap-around of an int64 result. */
  function WrapInt64(x: int): (r: int)
    ensures MIN_INT64 <= r <= MAX_INT64
    ensures MIN_INT64 <= x <= MAX_INT64 ==> r == x
    // Out of range, the result is the int64 congruent to x modulo 2^64.
    ensures (r - x) % 0x1_0000_0000_0000_0000 == 0
  {
    (x - MIN_INT64) % 0x1_0000_0000_0000_0000 + MIN_INT64
  }

  /** time.Duration(seconds) * time.Second, in nanoseconds, with int64 wrap-around. */
  function RetryDelay(seconds: int): (nanos: int)
    ensures MIN_INT64 <= nanos <= MAX_INT64
    ensures -MAX_DELAY_SECONDS <= seconds <= MAX_DELAY_SECONDS ==> nanos == seconds * NANOS_PER_SECOND
    // Beyond that the product wraps around: it agrees with s * 10^9 modulo 2^64.
    ensures (nanos - seconds * NANOS_PER_SECOND) % 0x1_0000_0000_0000_0000 == 0
  {
    WrapInt64(seconds * NANOS_PER_SECOND)
  }

  /** How export classifies a received response, before it turns the outcome into an error value. */
  datatype Outcome =
    | Success                                         // handed to the partial-success handler
    | Retry(message: string, retryAfterSeconds: int)  // exporterhelper.NewThrottleRetry
    | Permanent(message: string)                      // consumererror.NewPermanent

  /**
   * The outcome for a response with the given code and Retry-After value,
   * given the status readResponseStatus decoded from it.
   */
  function Classify(url: string, code: int, retryAfter: string, status: Option<RpcStatus>): (r: Outcome)
    ensures r.Success? <==> 200 <= code <= 299
    ensures r.Retry? <==> IsRetryableStatusCode(code)
    // Every other code, 1xx and 3xx included, is permanent.
    ensures r.Permanent? <==> !(200 <= code <= 299) && !IsRetryableStatusCode(code)
    ensures !r.Success? ==> r.message == ErrorMessage(url, code, status)
    ensures r.Retry? ==> r.retryAfterSeconds == RetryAfterSeconds(code, retryAfter)
  {
    if 200 <= code <= 299 then Success
    else
      var errString := ErrorMessage(url, code, status);
      if IsRetryableStatusCode(code) then Retry(errString, RetryAfterSeconds(code, retryAfter))
      else Permanent(errString)
  }
}

/**
 * metricsPartialSuccessHandler: decoding of the ExportMetricsServiceResponse
 * a 2xx response may carry, and the warning it raises when the server
 * dropped data points.
 */
module PartialSuccess {
  import opened Wrappers
  import opened Io

  const PROTOBUF_CONTENT_TYPE := "application/x-protobuf"
  const JSON_CONTENT_TYPE := "application/json"

  /** The partial_success field of a decoded export response (empty values when absent). */
  datatype ExportPartialSuccess = ExportPartialSuccess(errorMessage: string, rejectedDataPoints: int)

  /** UnmarshalProto or UnmarshalJSON, which are not part of this model: Err with the decoder's error text. */
  type ResponseDecoder = seq<byte> -> Result<ExportPartialSuccess>

  /** The "Partial success response" warning, with its message and dropped_data_points fields. */
  datatype Warning = Warning(message: string, droppedDataPoints: int)

  /** What the handler returns (None for nil) and what it logs. */
  datatype HandlerResult = HandlerResult(err: Option<string>, warning: Option<Warning>)

  /** The handler's condition for warning: not (empty message and zero rejected). */
  predicate IsPartialFailure(p: ExportPartialSuccess)
  {
    !(p.errorMessage == "" && p.rejectedDataPoints == 0)
  }

  /** A decoded envelope gives no error, and a warning carrying its fields exactly when something was rejected. */
  ghost predicate Reports(r: HandlerResult, p: ExportPartialSuccess)
  {
    && r.err.None?
    && (r.warning.Some? <==> p.errorMessage != "" || p.rejectedDataPoints != 0)
    && (r.warning.Some? ==> r.warning.value == Warning(p.errorMessage, p.rejectedDataPoints))
  }

  function MetricsPartialSuccessHandler(protoBytes: Option<seq<byte>>, contentType: string,
                                        decodeProto: ResponseDecoder, decodeJson: ResponseDecoder): (r: HandlerResult)
    // A nil body and an unknown content type are both silently accepted.
    ensures protoBytes.None? ==> r == HandlerResult(None, None)
    ensures contentType != PROTOBUF_CONTENT_TYPE && contentType != JSON_CONTENT_TYPE ==> r == HandlerResult(None, None)
    ensures r.err.Some? ==> r.warning.None?
    // The two known encodings: a decoding failure is an error, a decoded envelope is reported.
    ensures protoBytes.Some? && contentType == PROTOBUF_CONTENT_TYPE ==>
              match decodeProto(protoBytes.value)
              case Err(e) => r == HandlerResult(Some("error parsing protobuf response: " + e), None)
              case Ok(p) => Reports(r, p)
    ensures protoBytes.Some? && contentType == JSON_CONTENT_TYPE ==>
              match decodeJson(protoBytes.value)
              case Err(e) => r == HandlerResult(Some("error parsing json response: " + e), None)
              case Ok(p) => Reports(r, p)
  {
    if protoBytes.None? then HandlerResult(None, None)
    else if contentType == PROTOBUF_CONTENT_TYPE then
      AfterDecode(decodeProto(protoBytes.value), "error parsing protobuf response: ")
    else if contentType == JSON_CONTENT_TYPE then
      AfterDecode(decodeJson(protoBytes.value), "error parsing json response: ")
    else HandlerResult(None, None)
  }

  /** The handler's tail once a known encoding was decoded: the wrapped error, or the warning check. */
  function AfterDecode(decoded: Result<ExportPartialSuccess>, errorPrefix: string): HandlerResult
  {
    match decoded
    case Err(e) => HandlerResult(Some(errorPrefix + e), None)
    case Ok(p) =>
      if IsPartialFailure(p) then HandlerResult(None, Some(Warning(p.errorMessage, p.rejectedDataPoints)))
      else HandlerResult(None, None)
  }
}

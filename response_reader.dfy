/**
 * Bounded reading of a response body (readResponseBody) and best-effort
 * extraction of the structured error status from a failure body
 * (readResponseStatus).
 */
module ResponseReader {
  import opened Wrappers
  import opened Io
  import opened Http

  /** The most body bytes the exporter reads from one response: 64 KiB. */
  const MAX_HTTP_RESPONSE_READ_BYTES: nat := 64 * 1024

  /**
   * The size of the buffer readResponseBody allocates: the declared length,
   * or the cap when the length is unknown (-1) or larger than the cap.
   */
  function MaxRead(contentLength: int): nat
    requires contentLength >= -1 && contentLength != 0
  {
    if contentLength == -1 || contentLength > MAX_HTTP_RESPONSE_READ_BYTES then MAX_HTTP_RESPONSE_READ_BYTES
    else contentLength
  }

  /** The pair readResponseBody returns: the body bytes (None for nil) and the error (None for nil). */
  datatype BodyRead = BodyRead(bytes: Option<seq<byte>>, err: Option<IoError>)

  /** A nil slice passed on to a decoder reads as no bytes. */
  function BytesOf(b: Option<seq<byte>>): seq<byte>
  {
    if b.Some? then b.value else []
  }

  /**
   * What readResponseBody returns for a response with the given declared
   * length whose body stream holds `rest` and then reports `ending`.
   */
  function ReadBody(contentLength: int, rest: seq<byte>, ending: IoError): (r: BodyRead)
    requires contentLength >= -1
    // Never both bytes and an error.
    ensures r.bytes.Some? ==> r.err.None?
    // A declared length of zero means no read at all.
    ensures contentLength == 0 ==> r == BodyRead(None, None)
    // The bytes are a prefix of the stream, within the cap and within a positive declared length.
    ensures r.bytes.Some? ==> r.bytes.value <= rest && |r.bytes.value| <= MAX_HTTP_RESPONSE_READ_BYTES
    ensures r.bytes.Some? && contentLength > 0 ==> |r.bytes.value| <= contentLength
    // A stream holding at least the whole window gives exactly that window.
    ensures contentLength != 0 && |rest| >= MaxRead(contentLength) ==>
              r == BodyRead(Some(rest[..MaxRead(contentLength)]), None)
    // A shorter stream that ended with EOF gives all it held, declared length or not.
    ensures contentLength != 0 && 0 < |rest| < MaxRead(contentLength) && ending == EOF ==>
              r == BodyRead(Some(rest), None)
    ensures contentLength != 0 && |rest| < MaxRead(contentLength) && ending == UnexpectedEOF ==>
              r == BodyRead(Some(rest), None)
    // An empty stream that ended with EOF is "no body", not an error.
    ensures contentLength != 0 && rest == [] && ending == EOF ==> r == BodyRead(None, None)
    // Any other read error is passed on with a nil result.
    ensures r.err.Some? <==> contentLength != 0 && |rest| < MaxRead(contentLength) && ending.Failed?
    ensures r.err.Some? ==> r == BodyRead(None, Some(ending))
  {
    if contentLength == 0 then BodyRead(None, None)
    else
      var maxRead := MaxRead(contentLength);
      var (n, err) := ReadFullResult(rest, ending, maxRead);
      if n == 0 && (err.None? || err == Some(EOF)) then BodyRead(None, None)
      else if err.Some? && err != Some(UnexpectedEOF) then BodyRead(None, err)
      else
        assert rest[..|rest|] == rest;
        BodyRead(Some(rest[..n]), None)
  }

  /** readResponseBody: reads at most MaxRead(ContentLength) bytes into a fresh buffer. */
  method ReadResponseBody(resp: Response) returns (bytes: Option<seq<byte>>, err: Option<IoError>)
    requires resp.contentLength >= -1 && resp.body.Valid()
    modifies resp.body
    ensures resp.body.Valid()
    ensures BodyRead(bytes, err) == ReadBody(resp.contentLength, old(resp.body.Rest()), resp.body.ending)
    ensures resp.body.pos == old(resp.body.pos) +
              if resp.contentLength == 0 then 0 else Min(|old(resp.body.Rest())|, MaxRead(resp.contentLength))
  {
    if resp.contentLength == 0 {
      return None, None;
    }
    var maxRead := resp.contentLength;
    if maxRead == -1 || maxRead > MAX_HTTP_RESPONSE_READ_BYTES {
      maxRead := MAX_HTTP_RESPONSE_READ_BYTES;
    }
    var protoBytes := new byte[maxRead];
    var n, e := ReadFull(resp.body, protoBytes);
    if n == 0 && (e.None? || e == Some(EOF)) {
      return None, None;
    }
    if e.Some? && e != Some(UnexpectedEOF) {
      return None, e;
    }
    return Some(protoBytes[..n]), None;
  }

  /** The decoded google.rpc.Status; `details` stands for the %v rendering of its Details list. */
  datatype RpcStatus = RpcStatus(message: string, details: string)

  /** proto.Unmarshal into a Status, which is not part of this model: None when decoding fails. */
  type StatusDecoder = seq<byte> -> Option<RpcStatus>

  /** What readResponseStatus returns for a response in the given state. */
  function ResponseStatus(statusCode: int, contentLength: int, rest: seq<byte>, ending: IoError, decode: StatusDecoder): (r: Option<RpcStatus>)
    requires contentLength >= -1
    // Decoding is attempted only for 4xx and 5xx codes.
    ensures r.Some? ==> 400 <= statusCode <= 599
    // A failed body read gives no status.
    ensures ReadBody(contentLength, rest, ending).err.Some? ==> r.None?
    // A status is what the decoder made of the bytes read...
    ensures r.Some? ==> decode(BytesOf(ReadBody(contentLength, rest, ending).bytes)) == r
    // ...a 4xx or 5xx body that reads and decodes gives the decoded status...
    ensures 400 <= statusCode <= 599 && ReadBody(contentLength, rest, ending).err.None? ==>
              r == decode(BytesOf(ReadBody(contentLength, rest, ending).bytes))
    // ...and a decoder failure gives no status.
    ensures decode(BytesOf(ReadBody(contentLength, rest, ending).bytes)).None? ==> r.None?
  {
    if 400 <= statusCode <= 599 then
      var b := ReadBody(contentLength, rest, ending);
      if b.err.Some? then None else decode(BytesOf(b.bytes))
    else None
  }

  /** readResponseStatus: reads the body only for a 4xx or 5xx response. */
  method ReadResponseStatus(resp: Response, decode: StatusDecoder) returns (status: Option<RpcStatus>)
    requires resp.contentLength >= -1 && resp.body.Valid()
    modifies resp.body
    ensures resp.body.Valid()
    ensures status == ResponseStatus(resp.statusCode, resp.contentLength, old(resp.body.Rest()), resp.body.ending, decode)
    ensures !(400 <= resp.statusCode <= 599) ==> resp.body.pos == old(resp.body.pos)
  {
    status := None;
    if 400 <= resp.statusCode <= 599 {
      var respBytes, err := ReadResponseBody(resp);
      if err.Some? {
        return None;
      }
      status := decode(BytesOf(respBytes));
    }
  }
}

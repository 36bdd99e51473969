/** The HTTP values the exporter reads and builds (Go's net/http and net/url at their boundary). */
module Http {
  import opened Wrappers
  import opened Io

  /** Header values by canonical header name. */
  type Header = map<string, seq<string>>

  /** Header.Get: the first value under the key, or "" when there is none. */
  function HeaderGet(h: Header, key: string): string
  {
    if key in h && |h[key]| > 0 then h[key][0] else ""
  }

  /**
   * url.Parse, which is not part of this model: Ok with the parsed URL's
   * String() rendering, or Err with the parse error's text.
   */
  type UrlParser = string -> Result<string>

  /**
   * A received response: its status code, its declared ContentLength
   * (-1 when unknown), its header and its body stream.
   */
  datatype Response = Response(statusCode: int, contentLength: int, header: Header, body: BodyStream)

  /** An outgoing request; `url` is the parsed URL's rendering, as req.URL.String() gives it. */
  datatype HttpRequest = HttpRequest(verb: string, url: string, header: Header, body: seq<byte>, contentLength: int)
}

/**
 * The part of Go's io package that reading an HTTP response body goes
 * through: a body stream consumed by Read calls, and io.ReadFull, which
 * fills a caller-allocated buffer in place.
 */
module Io {
  import opened Wrappers

  newtype byte = x: int | 0 <= x < 256

  /** The errors a reader reports: io.EOF, io.ErrUnexpectedEOF, or any other failure. */
  datatype IoError = EOF | UnexpectedEOF | Failed(message: string)

  /** The text of the error, as its Error method gives it. */
  function ErrorText(e: IoError): string
  {
    match e
    case EOF => "EOF"
    case UnexpectedEOF => "unexpected EOF"
    case Failed(m) => m
  }

  function Min(a: int, b: int): int { if a <= b then a else b }

  /**
   * A response body: the bytes it will deliver, the most bytes any one Read
   * hands over (a network body may return fewer bytes than asked for), and
   * the error every Read reports once the bytes are used up (EOF for a body
   * that ended cleanly). `pos` counts the bytes already consumed.
   */
  class BodyStream {
    const data: seq<byte>
    const chunk: nat
    const ending: IoError
    var pos: nat

    ghost predicate Valid()
      reads this
    {
      0 < chunk && pos <= |data|
    }

    /** The bytes not consumed yet. */
    ghost function Rest(): seq<byte>
      reads this
      requires Valid()
    {
      data[pos..]
    }

    constructor (data: seq<byte>, chunk: nat, ending: IoError)
      requires 0 < chunk
      ensures Valid() && pos == 0
      ensures this.data == data && this.chunk == chunk && this.ending == ending
    {
      this.data, this.chunk, this.ending := data, chunk, ending;
      pos := 0;
    }

    /**
     * io.Reader.Read into buf[off..]: copies as many of the remaining bytes as
     * fit (at most `chunk`), with no error; once nothing is left it copies
     * nothing and reports the stream's ending.
     */
    method Read(buf: array<byte>, off: nat) returns (n: nat, err: Option<IoError>)
      requires Valid() && off < buf.Length
      modifies this, buf
      ensures Valid()
      ensures n == Min(Min(buf.Length - off, chunk), |data| - old(pos))
      ensures pos == old(pos) + n
      ensures err == if n == 0 then Some(ending) else None
      ensures forall k :: 0 <= k < buf.Length ==>
                buf[k] == if off <= k < off + n then data[old(pos) + k - off] else old(buf[k])
    {
      n := Min(Min(buf.Length - off, chunk), |data| - pos);
      var i := 0;
      while i < n
        invariant 0 <= i <= n
        invariant pos == old(pos)
        invariant forall k :: 0 <= k < buf.Length ==>
                    buf[k] == if off <= k < off + i then data[pos + k - off] else old(buf[k])
      {
        buf[off + i] := data[pos + i];
        i := i + 1;
      }
      pos := pos + n;
      err := if n == 0 then Some(ending) else None;
    }
  }

  /**
   * What io.ReadFull reports for a buffer of `size` bytes on a stream whose
   * remaining bytes are `rest`: it reads min(|rest|, size) bytes; no error
   * if the buffer filled; io.ErrUnexpectedEOF if some but not all bytes came
   * before a clean end; the stream's own ending otherwise (io.EOF only when
   * nothing was read).
   */
  function ReadFullResult(rest: seq<byte>, ending: IoError, size: nat): (r: (nat, Option<IoError>))
    ensures r.0 == Min(|rest|, size)
    ensures r.1.None? <==> |rest| >= size
    ensures r.1 == Some(EOF) ==> r.0 == 0
    ensures r.1.Some? && r.1 != Some(ending) ==> ending == EOF && r.1 == Some(UnexpectedEOF) && 0 < r.0
  {
    var n := Min(|rest|, size);
    if n >= size then (n, None)
    else if n > 0 && ending == EOF then (n, Some(UnexpectedEOF))
    else (n, Some(ending))
  }

  /** io.ReadFull(r, buf): Read until buf is full or the stream reports an error. */
  method ReadFull(r: BodyStream, buf: array<byte>) returns (n: nat, err: Option<IoError>)
    requires r.Valid()
    modifies r, buf
    ensures r.Valid()
    ensures (n, err) == ReadFullResult(old(r.Rest()), r.ending, buf.Length)
    ensures r.pos == old(r.pos) + n
    ensures n <= buf.Length && buf[..n] == old(r.Rest())[..n]
  {
    n, err := 0, None;
    while n < buf.Length && err.None?
      invariant r.Valid()
      invariant n <= buf.Length
      invariant r.pos == old(r.pos) + n
      invariant forall k :: 0 <= k < n ==> buf[k] == r.data[old(r.pos) + k]
      invariant err.Some? ==> n < buf.Length && r.pos == |r.data| && err == Some(r.ending)
      decreases buf.Length - n, if err.None? then 1 else 0
    {
      var m, e := r.Read(buf, n);
      n, err := n + m, e;
    }
    if n >= buf.Length {
      err := None;
    } else if n > 0 && err == Some(EOF) {
      err := Some(UnexpectedEOF);
    }
  }
}

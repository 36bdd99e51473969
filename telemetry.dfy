/**
 * recordMetrics: the four request counters the exporter adds to after every
 * HTTP round trip, each kept per attribute set.
 */
module RequestTelemetry {
  import opened Wrappers
  import opened Strconv
  import opened Http

  const EXPORTER_ID := "nreventexporter"
  const NANOS_PER_MILLISECOND := 1_000_000

  /** The attribute set every measurement carries. */
  datatype Attributes = Attributes(statusCode: string, endpoint: string, exporter: string)

  /** An Int64 counter: the sum added so far under each attribute set. */
  type Counter = map<Attributes, int>

  function CountOf(c: Counter, a: Attributes): int
  {
    if a in c then c[a] else 0
  }

  /** Counter.Add(v) under attribute set a. */
  function Add(c: Counter, a: Attributes, v: int): (c': Counter)
    ensures c'.Keys == c.Keys + {a}
    ensures CountOf(c', a) == CountOf(c, a) + v
    ensures forall b :: b != a ==> CountOf(c', b) == CountOf(c, b)
  {
    c[a := CountOf(c, a) + v]
  }

  /** The four instruments' values together. */
  datatype Totals = Totals(requestsDuration: Counter, requestsBytes: Counter, requestsRecords: Counter, requestsSent: Counter)

  /**
   * What holds of the counters when only recordMetrics adds to them: the
   * four are kept under the same attribute sets, every set was sent at
   * least once, and no duration is negative.
   */
  ghost predicate Consistent(t: Totals)
  {
    && t.requestsDuration.Keys == t.requestsSent.Keys
    && t.requestsBytes.Keys == t.requestsSent.Keys
    && t.requestsRecords.Keys == t.requestsSent.Keys
    && forall a :: a in t.requestsSent ==> t.requestsSent[a] >= 1 && t.requestsDuration[a] >= 0
  }

  /** The attributes of one request: the status code (0 when there is no response), the endpoint and the exporter id. */
  function RequestAttributes(respStatus: Option<int>, endpoint: string): (a: Attributes)
    ensures respStatus.None? ==> a.statusCode == "0"
    ensures respStatus.Some? ==> a.statusCode == FormatInt(respStatus.value)
    ensures respStatus.Some? && MIN_INT64 <= respStatus.value <= MAX_INT64 ==> Atoi(a.statusCode) == respStatus
    ensures a.endpoint == endpoint && a.exporter == EXPORTER_ID
  {
    var statusCode := if respStatus.Some? then respStatus.value else 0;
    var a := Attributes(FormatInt(statusCode), endpoint, EXPORTER_ID);
    if MIN_INT64 <= statusCode <= MAX_INT64 then AtoiFormatInt(statusCode); a else a
  }

  /**
   * The counters after one recorded request: under that request's attributes
   * one more request sent, `count` more records, its ContentLength more
   * bytes and the whole milliseconds of `elapsedNanos` more duration;
   * nothing else changes.
   */
  function Recorded(t: Totals, elapsedNanos: nat, count: int, req: HttpRequest, respStatus: Option<int>): (t': Totals)
    ensures Consistent(t) ==> Consistent(t')
    ensures var a := RequestAttributes(respStatus, req.url);
            && CountOf(t'.requestsSent, a) == CountOf(t.requestsSent, a) + 1
            && CountOf(t'.requestsRecords, a) == CountOf(t.requestsRecords, a) + count
            && CountOf(t'.requestsBytes, a) == CountOf(t.requestsBytes, a) + req.contentLength
            && CountOf(t'.requestsDuration, a) == CountOf(t.requestsDuration, a) + elapsedNanos / NANOS_PER_MILLISECOND
    ensures forall b :: b != RequestAttributes(respStatus, req.url) ==>
              && CountOf(t'.requestsSent, b) == CountOf(t.requestsSent, b)
              && CountOf(t'.requestsRecords, b) == CountOf(t.requestsRecords, b)
              && CountOf(t'.requestsBytes, b) == CountOf(t.requestsBytes, b)
              && CountOf(t'.requestsDuration, b) == CountOf(t.requestsDuration, b)
  {
    var a := RequestAttributes(respStatus, req.url);
    Totals(Add(t.requestsDuration, a, elapsedNanos / NANOS_PER_MILLISECOND),
           Add(t.requestsBytes, a, req.contentLength),
           Add(t.requestsRecords, a, count),
           Add(t.requestsSent, a, 1))
  }

  /** The exporter's telemetry builder: four counters shared by every export call. */
  class TelemetryBuilder {
    var exporterRequestsDuration: Counter
    var exporterRequestsBytes: Counter
    var exporterRequestsRecords: Counter
    var exporterRequestsSent: Counter

    ghost function Snapshot(): Totals
      reads this
    {
      Totals(exporterRequestsDuration, exporterRequestsBytes, exporterRequestsRecords, exporterRequestsSent)
    }

    ghost predicate Valid()
      reads this
    {
      Consistent(Snapshot())
    }

    constructor ()
      ensures Valid() && Snapshot() == Totals(map[], map[], map[], map[])
    {
      exporterRequestsDuration, exporterRequestsBytes := map[], map[];
      exporterRequestsRecords, exporterRequestsSent := map[], map[];
    }

    /** recordMetrics(duration, count, req, resp), with resp given by its status code. */
    method RecordMetrics(elapsedNanos: nat, count: int, req: HttpRequest, respStatus: Option<int>)
      requires Valid()
      modifies this
      ensures Valid()
      ensures Snapshot() == Recorded(old(Snapshot()), elapsedNanos, count, req, respStatus)
    {
      var statusCode := 0;
      if respStatus.Some? {
        statusCode := respStatus.value;
      }
      var attrs := Attributes(FormatInt(statusCode), req.url, EXPORTER_ID);
      exporterRequestsDuration := Add(exporterRequestsDuration, attrs, elapsedNanos / NANOS_PER_MILLISECOND);
      exporterRequestsBytes := Add(exporterRequestsBytes, attrs, req.contentLength);
      exporterRequestsRecords := Add(exporterRequestsRecords, attrs, count);
      exporterRequestsSent := Add(exporterRequestsSent, attrs, 1);
    }
  }
}

/**
  One health check of a monitor: the HTTP GET is an input (its outcome is what
  the client library reported), and this module turns that outcome into the
  status, response time and message the check records, and into the uptime
  figures it writes.
 */
module Probe {
  import opened Wrappers
  import opened Models
  import Decimal

  /** What the HTTP client reported: a response (status line and elapsed
      milliseconds, already truncated to an integer), one of its request errors
      (malformed URL, timeout, DNS, refused connection, TLS ...) with its text,
      or an exception that is not a request error, which the check does not catch. */
  datatype Outcome =
    | Response(code: nat, reason: string, elapsedMs: nat)
    | TransportError(text: string)
    | Raised(error: string)

  /** The arguments the check passes to the HTTP client. */
  datatype Request = Request(url: string, timeoutSeconds: real)

  datatype Classification = Classification(status: Status, responseTime: int, message: string)

  /** Status codes from this value on count as a failed check. */
  const FirstFailingCode: nat := 400

  /** The message recorded for a completed response: `<code> - <reason>`. */
  function ResponseMessage(code: nat, reason: string): string {
    Decimal.FromNat(code) + " - " + reason
  }

  /** Reads the status code and reason back out of a response message. */
  function ParseResponseMessage(msg: string): Option<(nat, string)> {
    var k := Decimal.LeadingDigits(msg);
    if k + 3 <= |msg| && msg[k..k + 3] == " - " then
      match Decimal.Parse(msg[..k])
      case Some(code) => Some((code, msg[k + 3..]))
      case None => None
    else None
  }

  /** A response message determines its code and reason, whatever the reason text holds. */
  lemma ResponseMessageRoundTrip(code: nat, reason: string)
    ensures ParseResponseMessage(ResponseMessage(code, reason)) == Some((code, reason))
  {
    var d := Decimal.FromNat(code);
    var msg := ResponseMessage(code, reason);
    assert msg == d + (" - " + reason);
    Decimal.LeadingDigitsOfConcat(d, " - " + reason);
    assert msg[..|d|] == d;
    assert msg[|d|..|d| + 3] == " - ";
    assert msg[|d| + 3..] == reason;
    Decimal.ParseFromNat(code);
  }

  /** Only the message of (`code`, `reason`) reads back as (`code`, `reason`):
      a leading zero or any other spelling of the code is rejected. */
  lemma ParseResponseMessageExact(msg: string, code: nat, reason: string)
    ensures ParseResponseMessage(msg) == Some((code, reason)) <==> msg == ResponseMessage(code, reason)
  {
    if ParseResponseMessage(msg) == Some((code, reason)) {
      var k := Decimal.LeadingDigits(msg);
      Decimal.ParseIsInverse(msg[..k], code);
      assert msg == msg[..k] + msg[k..k + 3] + msg[k + 3..];
    }
    if msg == ResponseMessage(code, reason) {
      ResponseMessageRoundTrip(code, reason);
    }
  }

  /** The classification rule of a check: `up` exactly for a received response
      whose code is below 400; the response time is the measured one, or the
      monitor's interval after a transport error. */
  function Classify(o: Outcome, interval: int): (c: Classification)
    requires !o.Raised?  // an uncaught exception leaves the check before it classifies
    ensures c.status != Unknown
    ensures c.status == Up <==> o.Response? && o.code < FirstFailingCode
    ensures c.status == Down <==> o.TransportError? || o.code >= FirstFailingCode
    ensures o.Response? ==> c.responseTime == o.elapsedMs
    ensures o.Response? ==> ParseResponseMessage(c.message) == Some((o.code, o.reason))
    ensures o.TransportError? ==> c.responseTime == interval && c.message == o.text
  {
    match o
    case Response(code, reason, elapsed) =>
      ResponseMessageRoundTrip(code, reason);
      Classification(if code < FirstFailingCode then Up else Down, elapsed, ResponseMessage(code, reason))
    case TransportError(text) =>
      Classification(Down, interval, text)
  }

  /** The (24 hour, 30 day) uptime figures a check writes: fixed values chosen by
      the status alone, never a computation over the history. */
  function UptimeAfter(s: Status): (u: (nat, nat))
    requires s != Unknown
    ensures u.1 <= u.0 <= FullUptime
    ensures s == Up <==> u.0 == FullUptime
    ensures s == Up <==> u.1 == FullUptime
    ensures s == Up ==> u == (FullUptime, FullUptime)
    ensures s == Down ==> u == (DownUptime24h, DownUptime30d)
  {
    if s == Up then (FullUptime, FullUptime) else (DownUptime24h, DownUptime30d)
  }

  /** The timeout the check hands to the HTTP client as written: the interval
      divided by 1000, although the interval is the job period in seconds. */
  function TimeoutAsWritten(interval: int): real {
    interval as real / 1000.0
  }

  /** As written, a monitor checked every 60 seconds gives its endpoint 0.06
      seconds to answer, and every positive interval leaves the probe a
      thousandth of the period. */
  lemma TimeoutAsWrittenIsThousandthOfPeriod(interval: int)
    requires interval > 0
    ensures TimeoutAsWritten(interval) < interval as real
    ensures TimeoutAsWritten(interval) * 1000.0 == interval as real
    ensures interval == 60 ==> TimeoutAsWritten(interval) == 0.06
  {
  }

  /** The corrected timeout: the interval read in the unit the scheduler uses, seconds. */
  function ProbeTimeout(interval: int): (t: real)
    ensures interval > 0 ==> t > 0.0
    ensures t == TimeoutAsWritten(interval) * 1000.0
  {
    interval as real
  }

  /** The client call a check of `m` makes. */
  function ProbeRequest(m: Monitor): (r: Request)
    ensures r.url == m.url
    ensures r.timeoutSeconds == m.interval as real
    ensures m.interval > 0 ==> r.timeoutSeconds > TimeoutAsWritten(m.interval)
  {
    Request(m.url, ProbeTimeout(m.interval))
  }

  /** A timeout the HTTP client refuses: one that is not positive. */
  predicate Rejected(r: Request) {
    r.timeoutSeconds <= 0.0
  }

  /** The client's rule for a refused timeout: it never sends the request. It
      checks the URL first, so a malformed URL still gives its request error;
      any other URL makes it raise an error that is not a request error. */
  ghost predicate ChecksTimeout(probe: Request -> Outcome) {
    forall r :: Rejected(r) ==> !probe(r).Response?
  }

  /** The client refuses the request of a check exactly when the interval is not
      positive; the same holds for the timeout as written. */
  lemma RejectedIffIntervalNotPositive(m: Monitor)
    ensures Rejected(ProbeRequest(m)) <==> m.interval <= 0
    ensures Rejected(ProbeRequest(m)) <==> TimeoutAsWritten(m.interval) <= 0.0
  {
  }
}

/** The delivery report the publish call resolves to, and the one result
    line the console prints for it. */
module Delivery {
  import opened Wrappers

  /** `ErrorCode.NoError`, the code of a report without an error. */
  const NoError: int := 0

  const DeliveredPrefix: string := "delivered to: "
  const FailedPrefix: string := "failed to deliver message: "

  /** The error part of a report: its code and human-readable reason. */
  datatype Error = Error(code: int, reason: string)

  /** A delivery report: the text of the topic/partition/offset the broker
      placed the message at, and the error it reported. */
  datatype DeliveryReport = DeliveryReport(location: string, error: Error)

  /** What the operator learns from one result line. */
  datatype Outcome = DeliveredTo(location: string) | FailedWith(reason: string)

  predicate Delivered(report: DeliveryReport) {
    report.error.code == NoError
  }

  /** The outcome a report stands for: the location when the code is
      NoError, the reason otherwise. */
  function OutcomeOf(report: DeliveryReport): Outcome {
    if Delivered(report) then DeliveredTo(report.location)
    else FailedWith(report.error.reason)
  }

  /** The text of a result line. */
  function Text(o: Outcome): string {
    match o
    case DeliveredTo(location) => DeliveredPrefix + location
    case FailedWith(reason) => FailedPrefix + reason
  }

  /** Reads a result line back: which outcome it reports, if any. */
  function ReadBack(line: string): Option<Outcome> {
    if DeliveredPrefix <= line then Some(DeliveredTo(line[|DeliveredPrefix|..]))
    else if FailedPrefix <= line then Some(FailedWith(line[|FailedPrefix|..]))
    else None
  }

  /** The result line printed for a report: it states the outcome in full,
      so that reading it back recovers the delivered flag and the location
      or reason. */
  function Render(report: DeliveryReport): (line: string)
    ensures ReadBack(line) == Some(OutcomeOf(report))
    ensures DeliveredPrefix <= line <==> Delivered(report)
    ensures !Delivered(report) ==> FailedPrefix <= line
  {
    var o := OutcomeOf(report);
    ReadBackText(o);
    Text(o)
  }

  /** Reading back a result line recovers its outcome. */
  lemma ReadBackText(o: Outcome)
    ensures ReadBack(Text(o)) == Some(o)
  {
    match o
    case DeliveredTo(location) =>
      assert (DeliveredPrefix + location)[|DeliveredPrefix|..] == location;
    case FailedWith(reason) =>
      var line := FailedPrefix + reason;
      assert line[0] == 'f';
      assert !(DeliveredPrefix <= line);
      assert line[|FailedPrefix|..] == reason;
  }

  /** A line that reads back as an outcome is exactly that outcome's text:
      no two outcomes share a line. */
  lemma ReadBackExact(line: string, o: Outcome)
    requires ReadBack(line) == Some(o)
    ensures Text(o) == line
  {
  }
}

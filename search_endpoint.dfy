/**
  The `/api/search` handler's mapping from the bot exchange to the JSON response.
  Sending the phone number, the fixed wait and fetching the latest message are
  not modelled; their outcome is the `OracleReply` the handler is given.
 */
module SearchEndpoint {
  import opened Wrappers
  import Strings
  import Redaction

  /** Where a thrown error came from; the response does not tell them apart. */
  datatype FailureKind = Delivery | Fetch | Internal

  /** The outcome of the exchange: the text of the latest message in the chat with
      the bot (`None` when the chat holds no message), or an error thrown inside the
      handler's `try`. */
  datatype OracleReply = Ok(latest: Option<string>) | Err(kind: FailureKind)

  /** The two JSON bodies the handler sends. */
  datatype Response =
    | Success(unit: string, sound: string, report: string)
    | Failure(error: string, sound: string)

  const UnitName: string := "Welfare Intelligence Team"

  /** The HTTP status: the default 200 for `res.json`, 500 on the error path. */
  function StatusCode(r: Response): (code: nat)
    ensures code == 200 <==> r.Success?
    ensures code == 200 || code == 500
  {
    if r.Success? then 200 else 500
  }

  /** `msgs[0]?.message || ""`: the latest message's text, or the empty string. */
  function RawData(latest: Option<string>): (raw: string)
    ensures latest.Some? ==> raw == latest.value
    ensures latest.None? ==> raw == ""
  {
    match latest
    case None => ""
    case Some(text) => text
  }

  /** The handler: a report under the team's name, or the single timeout shape. */
  function Search(reply: OracleReply): (r: Response)
    ensures StatusCode(r) == 200 <==> reply.Ok?
    ensures reply.Err? ==> r == Failure("Timeout", "error_buzz")
    ensures r.Success? ==> r.unit == UnitName && r.sound == "success_beep"
    ensures r.Success? ==>
      |Redaction.Header| <= |r.report| && r.report[..|Redaction.Header|] == Redaction.Header
  {
    match reply
    case Err(_) => Failure("Timeout", "error_buzz")
    case Ok(latest) => Success(UnitName, "success_beep", Redaction.Report(RawData(latest)))
  }

  /** Every failure, whatever its cause, yields the same response. */
  lemma FailuresIndistinguishable(k1: FailureKind, k2: FailureKind)
    ensures Search(Err(k1)) == Search(Err(k2))
    ensures StatusCode(Search(Err(k1))) == 500
  {
  }

  /** A chat with no message and an empty message both give the bare not-found report. */
  lemma NoMessageNotFound()
    ensures Search(Ok(None)) == Search(Ok(Some("")))
    ensures Search(Ok(None)) ==
      Success(UnitName, "success_beep", Redaction.Header + Redaction.NotFound)
  {
    Redaction.EmptyReplyNotFound();
  }

  /** A successful response carries the report of the message text, read line by line:
      the header lines, then the masked kept lines or the not-found line. */
  lemma SuccessReportLines(text: string)
    ensures var r := Search(Ok(Some(text)));
      var processed := Redaction.Redact(text);
      r.Success? &&
      Strings.Split(r.report, '\n') ==
        [Redaction.HeaderTitle, Redaction.HeaderStatus, Redaction.HeaderRule, ""] +
        (if processed == [] then [Redaction.NotFound] else Redaction.Spread(processed))
  {
    Redaction.ReportLines(text);
  }
}

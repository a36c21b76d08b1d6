/** Reading the summary out of the summarization service's answer (route.ts lines 118-128). */
module SummaryResponse {
  import opened Wrappers

  /** A JSON object of the answer; `summaryText` is its `summary_text` string, `None` when absent. */
  datatype SummaryObject = SummaryObject(summaryText: Option<string>)

  /** The parsed answer: `null`, one object, or an array whose elements are objects or other values
      (`None`: `null`, a number, ...). A top-level string or number (a body that is not JSON stays
      a string) has no `summary_text` either; it is read as `Object(SummaryObject(None))` is, and
      ends in "No summary generated". */
  datatype ServiceAnswer =
    | NullAnswer
    | Object(obj: SummaryObject)
    | Array(elements: seq<Option<SummaryObject>>)

  /** An error response: HTTP status and the `error` message. */
  datatype Rejection = Rejection(status: int, message: string)

  const NoSummaryGenerated := Rejection(500, "No summary generated")

  /** Reading `summary_text` of `null` throws; the handler's catch-all answers with this. */
  const FailedToGenerateSummary := Rejection(500, "Failed to generate summary")

  /** The object whose `summary_text` is read: the answer itself, or element 0 of an array. */
  function SummaryHolder(answer: ServiceAnswer): Option<SummaryObject>
  {
    match answer
    case NullAnswer => None
    case Object(o) => Some(o)
    case Array(es) => if |es| > 0 then es[0] else None
  }

  /** `summaryText`, checked for truthiness: a non-empty summary, or the rejection the handler
      returns before anything is stored. */
  function ResolveSummary(answer: ServiceAnswer): (r: Result<string, Rejection>)
    ensures r.Success? ==> r.value != ""
    ensures r.Success? ==>
      || answer == Object(SummaryObject(Some(r.value)))
      || (answer.Array? && |answer.elements| > 0 && answer.elements[0] == Some(SummaryObject(Some(r.value))))
    ensures answer.NullAnswer? ==> r == Failure(FailedToGenerateSummary)
    ensures !answer.NullAnswer? && r.Failure? ==> r.error == NoSummaryGenerated
  {
    if answer.NullAnswer? then Failure(FailedToGenerateSummary)
    else
      match SummaryHolder(answer)
      case Some(SummaryObject(Some(text))) => if text == "" then Failure(NoSummaryGenerated) else Success(text)
      case _ => Failure(NoSummaryGenerated)
  }

  /** Both answer shapes are read the same way: an array whose first element is an object is read
      as that object. (An array whose first element is `null` is not read like a `null` answer:
      `?.` turns it into "No summary generated", see `ArrayWithoutFirstSummary`.) */
  lemma ArrayShapeTolerated(o: SummaryObject, rest: seq<Option<SummaryObject>>)
    ensures ResolveSummary(Array([Some(o)] + rest)) == ResolveSummary(Object(o))
  {
  }

  /** An object answer is accepted exactly when its `summary_text` is present and not empty. */
  lemma ObjectAccepted(o: SummaryObject)
    ensures ResolveSummary(Object(o)).Success? <==> o.summaryText.Some? && o.summaryText.value != ""
  {
  }

  /** An array answer with no usable first element is rejected with "No summary generated",
      whatever the later elements hold. */
  lemma ArrayWithoutFirstSummary(es: seq<Option<SummaryObject>>)
    requires |es| == 0 || es[0].None? || es[0].value.summaryText.None? || es[0].value.summaryText == Some("")
    ensures ResolveSummary(Array(es)) == Failure(NoSummaryGenerated)
  {
  }
}

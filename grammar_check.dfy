/**
 * The grammar-check client's side of the component: the error descriptor the
 * widget works with, the shape of the service's reply, and the normalisation
 * `checkGrammar` applies to it before the lifecycle stores it.
 *
 * The HTTP request itself is not modelled: its outcome arrives as a value of
 * `CheckOutcome`, either a decoded reply or a failure of any kind.
 */
module GrammarCheck {
  import opened Wrappers

  /** One flagged span `[offset, offset + length)` of the text the check was run on. */
  datatype GrammarError = GrammarError(
    bad: string,
    message: string,
    suggestions: seq<string>,
    offset: int,
    length: int)

  /** One entry of the reply's `errors` array; `suggestions` may be absent. */
  datatype RawError = RawError(
    bad: string,
    message: string,
    suggestions: Option<seq<string>>,
    offset: int,
    length: int)

  /**
   * What a check produces: a decoded reply, whose `errors` field may be absent,
   * or a failure (transport error, a non-success status, a body that is not JSON,
   * an `errors` value that is not an array).
   */
  datatype CheckOutcome = Responded(errors: Option<seq<RawError>>) | Failed

  /** The per-entry mapping of the reply, copying every field and defaulting `suggestions` to `[]`. */
  function MapErrors(raw: seq<RawError>): (r: seq<GrammarError>)
    ensures |r| == |raw|
    ensures forall i :: 0 <= i < |raw| ==>
      && r[i].bad == raw[i].bad
      && r[i].message == raw[i].message
      && r[i].suggestions == raw[i].suggestions.GetOr([])
      && r[i].offset == raw[i].offset
      && r[i].length == raw[i].length
    decreases |raw|
  {
    if |raw| == 0 then []
    else
      var e := raw[0];
      [GrammarError(e.bad, e.message, e.suggestions.GetOr([]), e.offset, e.length)] + MapErrors(raw[1..])
  }

  /**
   * The error list a check leaves behind: the mapped entries of a reply, and the
   * empty list for a reply without `errors` or for any failure.
   */
  function CheckErrors(outcome: CheckOutcome): (r: seq<GrammarError>)
    ensures outcome.Failed? ==> r == []
    ensures outcome.Responded? && outcome.errors.None? ==> r == []
    ensures outcome.Responded? && outcome.errors.Some? ==> |r| == |outcome.errors.value|
    ensures forall i :: 0 <= i < |r| ==>
      outcome.Responded? && outcome.errors.Some? &&
      var raw := outcome.errors.value[i];
      r[i] == GrammarError(raw.bad, raw.message, raw.suggestions.GetOr([]), raw.offset, raw.length)
  {
    match outcome
    case Failed => []
    case Responded(errors) => MapErrors(errors.GetOr([]))
  }
}

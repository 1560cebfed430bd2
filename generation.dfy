/**
 * The text-generation service, seen from the patch loops.  The service is an
 * opaque capability; the model makes it a total function of the number of
 * calls made so far and the function source it is asked about (the fixed
 * prompt wording is folded into it), which covers any deterministic stub.
 */
module Generation {
  import opened Extraction

  /** What one call gives back: the response text, or an exception raised by the service. */
  datatype Response = Text(text: string) | Raised

  /** `oracle(k, code)` is the answer to the k-th call overall, asked about `code`. */
  type Oracle = (nat, string) -> Response

  /** A response whose text holds no marker at all. */
  predicate Unmarked(r: Response) {
    r.Text? && !ContainsMarker(r.text)
  }

  /** A response whose text holds a marker. */
  predicate Marked(r: Response) {
    r.Text? && ContainsMarker(r.text)
  }

  /** Every call, about any function, returns text with a marker. */
  ghost predicate AlwaysMarked(oracle: Oracle) {
    forall k, code :: Marked(oracle(k, code))
  }

  /** No call about `code` ever returns text with a marker. */
  ghost predicate NeverMarked(oracle: Oracle, code: string) {
    forall k :: !Marked(oracle(k, code))
  }
}

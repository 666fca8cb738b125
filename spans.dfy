/** Value types shared by every stage of the masking pipeline. */
module Spans {

  datatype Option<T> = None | Some(value: T)

  datatype Result<T, E> = Success(value: T) | Failure(error: E)

  /** The only exception the masking core can raise on its own: `divmod` by the
      length of an empty replacement token. */
  datatype MaskError = DivisionByZero

  /** A labelled half-open interval [start, end) of the original text, together
      with the substring it was detected on. The label is the field `kind`
      (`label` is a keyword of Dafny). */
  datatype Span = Span(start: int, end: int, kind: string, text: string)

  predicate InBounds(s: Span, n: int)
  {
    0 <= s.start <= s.end <= n
  }

  /** Position p of the original text lies inside span s. */
  predicate Covers(s: Span, p: int)
  {
    s.start <= p < s.end
  }
}

/** Failure-compatible results for the translator.

    The translator aborts on the first malformed lookup (a Python KeyError);
    every such abort is one `Error` value, and `Result` carries it so that
    `:-` propagates it exactly as the exception would. */
module Outcomes {

  /** The three ways a translation aborts. */
  datatype Error =
    /** a road link's movement tag is none of the three known tags */
    | UnknownDirection(tag: string)
    /** a light phase names a road-link index the intersection does not have */
    | UnknownRoadLink(junction: string, index: int)
    /** a virtual intersection that no road ends at, or that no road starts at */
    | UnknownJunction(junction: string)

  datatype Result<+T> = Ok(value: T) | Fail(error: Error) {

    predicate IsFailure() {
      Fail?
    }

    function PropagateFailure<U>(): Result<U>
      requires Fail?
    {
      Fail(error)
    }

    function Extract(): T
      requires Ok?
    {
      value
    }
  }
}

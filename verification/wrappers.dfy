/** Small value wrappers shared by the whole model. */
module Wrappers {

  /** An optional value; also used as "the pattern did not apply". */
  datatype Option<+T> = None | Some(value: T) {

    predicate IsFailure() {
      None?
    }

    function PropagateFailure<U>(): Option<U>
      requires None?
    {
      None
    }

    function Extract(): T
      requires Some?
    {
      value
    }

    /** The first of two alternatives that is present (regex alternation). */
    function OrElse(other: Option<T>): Option<T> {
      if Some? then this else other
    }
  }

  /** What one call of a matcher produced: a string, or an exception that the caller swallows. */
  datatype Reply = Answer(text: string) | Raised
}

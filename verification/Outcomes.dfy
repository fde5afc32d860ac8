/** How a call into the JavaScript reader can end. */
module Outcomes {

  /**
   * `Throws` is an exception (a failed `goog.asserts` check, or a RangeError).
   * `Backward` is the one place where the reader moves its cursor towards the
   * start of the input: skipping a delimited field whose length prefix has more
   * than five bytes and reads as a negative number. The methods of the reader
   * stop there; `ParseRuns` follows the parse further.
   */
  datatype Outcome<+T> = Ok(value: T) | Throws | Backward {

    predicate IsFailure() {
      !Ok?
    }

    function PropagateFailure<U>(): Outcome<U>
      requires !Ok?
    {
      if Throws? then Throws else Backward
    }

    function Extract(): T
      requires Ok?
    {
      value
    }
  }

  datatype Option<+T> = None | Some(value: T)
}

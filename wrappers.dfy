/** Failure-carrying results shared by every stage of the pipeline. */
module Wrappers {

  /** Python's `None` and a present value. */
  datatype Option<+T> = None | Some(value: T)

  /** The exceptions the modelled code can raise. */
  datatype Error =
    | ParseError        // the grammar did not consume the whole text
    | AttributeError    // an attribute read on `None` (an automaton for the empty language)
    | ZeroDivision      // a division of a coefficient by zero
    | AssertionFailed   // a failed `assert` statement
    | KeyError          // a read of a dictionary key that is absent

  datatype Result<+T> = Ok(value: T) | Err(error: Error) {
    predicate IsFailure() { Err? }

    function PropagateFailure<U>(): Result<U>
      requires Err?
    {
      Err(error)
    }

    function Extract(): T
      requires Ok?
    {
      value
    }
  }
}

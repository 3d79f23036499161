/** The two exceptions the rational-number code can raise, and the result
    type that carries either a value or one of them. */
module Exceptions {

  /** `IllegalArgument` is the exception `divBy` throws on a zero denominator;
      `NumberFormat` is the one the decimal integer parser throws on text that
      is not an optionally signed run of digits. */
  datatype Error = IllegalArgument | NumberFormat

  datatype Result<+T> = Ok(value: T) | Err(error: Error) {

    predicate IsFailure() {
      Err?
    }

    function PropagateFailure<U>(): Result<U>
      requires Err?
    {
      Err(error)
    }

    function Extract(): T
      requires Ok?
    {
      value
    }
  }
}

/**
 * The exceptions the library raises, and the result types the model uses in
 * place of raising them. Each error kind is distinguishable, as the library's
 * own tests tell them apart.
 */
module Errors {

  /** The Ruby exception classes the core raises. */
  datatype Error =
    | ArgumentError
    | RangeError
    | IndexError
    | StackEmptyError
    | QueueEmptyError
    | PriorityQueueEmptyError
    | NotBipartiteError
    | NoMethodError

  /** A value, or the exception raised instead of returning one. */
  datatype Result<+T> = Ok(value: T) | Err(error: Error) {
    predicate IsFailure() { Err? }

    function PropagateFailure<U>(): Result<U>
      requires Err?
    {
      Err(error)
    }

    function Extract(): T
      requires Ok?
    {
      value
    }
  }

  /** Success without a value, or the exception raised. */
  datatype Outcome = Pass | Fail(error: Error) {
    predicate IsFailure() { Fail? }

    function PropagateFailure<U>(): Result<U>
      requires Fail?
    {
      Err(error)
    }
  }

  /** Ruby's `nil`-or-value, as returned by the lenient queries. */
  datatype Option<+T> = None | Some(value: T)
}

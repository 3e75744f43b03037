/** Error kinds of the selection evaluator and the result type that carries them. */
module Errors {

  /** Why an evaluation was abandoned. The source raises an exception for each of these;
      the model returns it, and evaluation stops at the first one. */
  datatype Error =
    | UnknownOperation      // an operation tag the dispatcher does not know
    | UnknownKeyword        // a `molecule` keyword outside the vocabulary
    | UnknownProperty       // a property name outside the attribute map
    | UnknownLogicalOp
    | UnknownComparison
    | UnknownFunction
    | UnknownArithmeticOp
    | InvalidGroupProperty  // `same X as` with an X that has no grouping
    | TypeMismatch          // an operand of a kind the operator rejects
    | ShapeMismatch         // two per-atom arrays of different lengths
    | NegativeSqrtArgument
    | DivisionByZero
    | MalformedAst          // a node with fewer children than its operation reads
    | ParseFailure(selection: string, message: string)
    | SelectionFailed(selection: string, cause: Error)

  datatype Result<+T> = Ok(value: T) | Err(error: Error)
  {
    predicate IsFailure() { Err? }

    function PropagateFailure<U>(): Result<U>
      requires Err?
    {
      Err(error)
    }

    function Extract(): T
      requires Ok?
    {
      value
    }
  }
}

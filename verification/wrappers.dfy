/** Failure-carrying datatypes shared by every module of the model.
    `Option` stands for a reference that may be null; `Result` for an
    operation that may throw, with `Fault` naming the exception. */
module Wrappers {

  /** A value that may be absent (a null reference, an empty lookup). */
  datatype Option<+T> = None | Some(value: T) {

    /** The value, or `default` when absent. */
    function GetOr(default: T): T {
      match this
      case Some(v) => v
      case None => default
    }
  }

  /** The exceptions the modelled code can raise. */
  datatype Fault =
    | NotInitialized   // a transform read before it was set up
    | QueueFull        // Enqueue on a full ring buffer
    | QueueEmpty       // Dequeue or Peek on an empty ring buffer
    | DuplicateKey     // Dictionary.Add with a key already present
    | MissingKey       // a dictionary indexer read of an absent key
    | NullNode         // a member access through a null node reference
    | IndexOutOfRange  // an array index outside its bounds

  /** Either the value an operation returns or the exception it throws. */
  datatype Result<+T> = Success(value: T) | Failure(error: Fault) {

    predicate IsFailure() {
      Failure?
    }

    function PropagateFailure<U>(): Result<U>
      requires Failure?
    {
      Failure(error)
    }

    function Extract(): T
      requires Success?
    {
      value
    }
  }
}

/** Outcome types shared by every module of the model. Java signals failures
    with unchecked exceptions; the model returns them as values instead. */
module Results {

  /** A nullable reference: `None` is Java's `null`. */
  datatype Option<T> = None | Some(value: T)

  /** The runtime exceptions the modelled Java code can raise. */
  datatype Fault =
    | IndexOutOfBounds        // ArrayIndexOutOfBoundsException
    | StringIndexOutOfBounds  // StringIndexOutOfBoundsException from charAt
    | NullPointer             // NullPointerException
    | IllegalArgument         // IllegalArgumentException
    | NegativeArraySize       // NegativeArraySizeException
    | NumberFormat            // NumberFormatException from a numeric parse

  /** Either a value or the exception that aborted the computation. */
  datatype Result<T> = Ok(value: T) | Err(fault: Fault) {

    predicate IsFailure() {
      Err?
    }

    function PropagateFailure<U>(): Result<U>
      requires Err?
    {
      Err(fault)
    }

    function Extract(): T
      requires Ok?
    {
      value
    }
  }
}

/** The exceptions the Java code can raise, and the wrappers that carry them. */
module Results {

  /** The Java exception a failing operation throws. */
  datatype Error =
    | IllegalArgument     // IllegalArgumentException
    | IndexOutOfBounds    // ArrayIndexOutOfBoundsException
    | NegativeArraySize   // NegativeArraySizeException
    | NullPointer         // NullPointerException on a register that is not there
    | EndOfFile           // EOFException

  datatype Option<+T> = None | Some(value: T)

  datatype Result<+T> = Ok(value: T) | Err(error: Error) {
    predicate IsFailure() {
      Err?
    }

    function PropagateFailure<U>(): Result<U>
      requires Err?
    {
      Err(error)
    }

    function Extract(): T
      requires Ok?
    {
      value
    }
  }
}

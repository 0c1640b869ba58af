/** Error results for the stack guards of the VM. */
module Results {

  /** The two capacity failures named by the push and pop guards. */
  datatype Error = StackOverflow | StackUnderflow

  /** A failure-compatible result: on `Err` the caller keeps its old VM. */
  datatype Result<+T> = Ok(value: T) | Err(error: Error)
  {
    predicate IsFailure() {
      Err?
    }

    function PropagateFailure<U>(): Result<U>
      requires Err?
    {
      Err(error)
    }

    function Extract(): T
      requires Ok?
    {
      value
    }
  }
}

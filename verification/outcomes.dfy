/** Results of operations that the source can abandon with an exception. */
module Outcomes {

  /** Why an operation produced no result. */
  datatype Error =
    | BufferTooShort(length: nat, needed: nat)  // an array index past the end of the datagram
    | NoLinkForId(id: int)                      // `perfectLinks.get` returned null
    | NoLinkForPort(port: int)                  // `Optional.empty().get()`
    | IndexOutOfBounds(index: int)              // an array index past the end of a clock

  datatype Result<+T> = Ok(value: T) | Err(error: Error) {
    predicate IsFailure() {
      Err?
    }

    function PropagateFailure<U>(): Result<U>
      requires Err?
    {
      Err(error)
    }

    function Extract(): T
      requires Ok?
    {
      value
    }
  }

  datatype Option<+T> = None | Some(value: T)
}

/** Outcomes of operations that the program either answers or aborts with
    an exception. */
module Wrappers {

  datatype Option<T> = None | Some(value: T)

  /** `Err` carries the message of the exception the program throws. */
  datatype Result<T> = Ok(value: T) | Err(msg: string)
}

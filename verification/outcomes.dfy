/** Failure-carrying datatypes used by the MultiDict operations. */
module Outcomes {

  /** The single recoverable failure of the container. The source reports it
      as the text "No matching key found" from `get`, `getall` and `popone`. */
  datatype Error = KeyNotFound

  /** A successful value or the container's error. */
  datatype Result<+T> = Ok(value: T) | Err(error: Error)

  /** An optional value, used for positions that may not exist. */
  datatype Option<+T> = None | Some(value: T)
}

/** Failure-carrying results, standing in for the exceptions the generator raises. */
module Wrappers {

  datatype Option<+T> = None | Some(value: T)

  datatype Result<+T, +E> = Ok(value: T) | Err(error: E)

  /** Python truthiness of an optional string argument: absent and `""` are false. */
  predicate Given(o: Option<string>) {
    o.Some? && o.value != ""
  }
}

/** Option and Result values, used where the backend returns "nothing" or raises an HTTP error. */
module Wrappers {

  datatype Option<+T> = None | Some(value: T)

  datatype Result<+T, +E> = Ok(value: T) | Err(error: E)

  function Min(a: nat, b: nat): nat
  {
    if a <= b then a else b
  }
}

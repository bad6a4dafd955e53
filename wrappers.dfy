/** Failure-carrying values shared by every module: Go's `(T, error)` pairs
    become `Result`, a bare `error` that may be nil becomes `Option<string>`. */
module Wrappers {

  datatype Option<+T> = None | Some(value: T)

  datatype Result<+T> = Ok(value: T) | Err(error: string)
}

/** Failure-carrying shapes shared by the model. A Go `(value, error)` pair
    becomes a `Result`, a value that may be nil becomes an `Option`, and a
    bare `error` return becomes an `Outcome`. */
module Results {

  datatype Option<+T> = None | Some(value: T)

  datatype Result<+T> = Ok(value: T) | Err(msg: string)

  datatype Outcome = Pass | Fail(msg: string)
}

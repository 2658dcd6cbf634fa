/** Failure-carrying values shared by every module of the model.
    `Result` stands for Rust's `anyhow::Result` and `std::io::Result`: the
    error side carries the text that the error displays. */
module Wrappers {

  datatype Option<+T> = None | Some(value: T)

  datatype Result<+T> = Ok(value: T) | Err(error: string)

  /** `Option::unwrap_or` */
  function GetOr<T>(o: Option<T>, default: T): T
  {
    match o
    case Some(v) => v
    case None => default
  }
}

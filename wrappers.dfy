/** The two result shapes the parser works with: `Option` for the outcome of
    `usize::from_str` (whose error value the parser discards) and `Result` for
    `Result<Person, ParsePersonError>`. */
module Wrappers {

  datatype Option<+T> = None | Some(value: T)

  datatype Result<+T, +E> = Ok(value: T) | Err(error: E)
}

/** The two failure-carrying types the engine uses: `Option` for values that
    may be missing (a file name, a modification time, a directory listing)
    and `Result` for operations that return an error. */
module Wrappers {

  datatype Option<+T> = None | Some(value: T)

  datatype Result<+T, +E> = Ok(value: T) | Err(error: E)
}

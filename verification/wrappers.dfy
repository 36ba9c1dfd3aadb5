/** The two failure-carrying shapes the model uses: `Option` for Go's nil-or-value
    results and `Result` for a value-or-error return pair. */
module Wrappers {

  datatype Option<+T> = None | Some(value: T)

  datatype Result<+R, +E> = Ok(value: R) | Err(error: E)
}

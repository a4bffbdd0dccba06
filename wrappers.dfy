/** Option and Result, the two failure-carrying shapes the model uses in place of
    `undefined`/`null` and of neverthrow's `ok`/`err`. */
module Wrappers {

  datatype Option<+T> = None | Some(value: T)

  datatype Result<+T, +E> = Ok(value: T) | Err(error: E)
}

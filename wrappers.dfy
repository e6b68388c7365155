/** Option and Result, the two failure-carrying shapes the Rust program uses
    (`Option<(String, String)>` for the remembered matches and
    `Result<_, SupipiError>` for everything that can fail at start-up). */
module Wrappers {

  datatype Option<+T> = None | Some(value: T)

  datatype Result<+R, +E> = Ok(value: R) | Err(error: E)
}

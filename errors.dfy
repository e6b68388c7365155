/** The program's error type `SupipiError` (src/main.rs:17-28). The wrapped
    `io::Error` and `ctrlc::Error` payloads are opaque to the model, so each
    variant is kept without them. */
module Errors {

  datatype SupipiError =
    | Io          // an I/O operation failed (opening the chosen device)
    | Signal      // the SIGINT/SIGTERM handler could not be installed
    | NoKeyboard  // no input device is named, or contains, "KB USB KB"
}

/** The error handling both crates share: `Result<T> = std::result::Result<T, anyhow::Error>`.
    Each `anyhow!` message raised in the modelled code becomes one constructor of `Error`. */
module Errors {

  datatype Error =
    | ZeroDuration            // "activating for 0 seconds is nonsense"
    | DurationExceedsDay      // "... the provided for_seconds exceeds that"
    | EmptyActivations        // "activations can't be empty"
    | OverlappingActivations  // "activations can't overlap"
    | EmptyOutputName         // "output name can't be empty"
    | IdenticalOutputNames    // "identical output names"
    | DuplicatePinNumbers     // "duplicate pin numbers"
    | NotImplemented          // "not implemented"

  datatype Result<+T> = Ok(value: T) | Err(error: Error)

  datatype Option<+T> = None | Some(value: T)
}

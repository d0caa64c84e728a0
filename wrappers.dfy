/** Optional values and results with an error message, the shapes that the
    TypeScript code expresses with `null` and with thrown `Error`s. */
module Wrappers {

  datatype Option<+T> = None | Some(value: T)

  /** `Err(message)` stands for a thrown `Error` whose message is `message`. */
  datatype Result<+T> = Ok(value: T) | Err(error: string)
}

/** Optional values and failures as the host runtime produces them. */
module Wrappers {

  /** A value that may be absent: JavaScript's `null` / `undefined`. */
  datatype Option<+T> = None | Some(value: T)

  /** The exceptions the modelled code lets escape. */
  datatype Error =
    /** A method called on `null` (`path.resolve(null)`, `null.lastIndexOf`). */
    | TypeError
    /** `fs.readdirSync` on a path that is missing or is not a directory. */
    | NotFound

  /** The outcome of an operation that may throw. */
  datatype Result<+T> = Ok(value: T) | Err(error: Error)
}

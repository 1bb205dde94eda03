/** Optional values and error-or-value results, used for JavaScript's
    `null`/`undefined` and for the exceptions the services throw. */
module Wrappers {

  datatype Option<+T> = None | Some(value: T)

  /** `Err` carries the message of the `Error` the JavaScript code throws. */
  datatype Result<+T> = Ok(value: T) | Err(message: string)
}

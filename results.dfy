/**
 * Settled promises. Every asynchronous step of the server either resolves
 * with a value or rejects with an error; the model writes that as a value
 * of `Result` (a promise with a payload) or `Outcome` (a promise that only
 * succeeds or fails), so error paths are visible in every signature.
 */
module Results {

  /** Why a promise rejected. */
  datatype Error =
    | FileError(path: string, code: string)  // fs.readFile failed (missing file, no permission, ...)
    | Thrown(message: string)                // an exception raised by a library call

  /** A promise that resolves with a `T` or rejects with an `Error`. */
  datatype Result<+T> = Ok(value: T) | Err(error: Error)

  /** A promise that resolves with no value or rejects with an `Error`. */
  datatype Outcome = Pass | Fail(error: Error)

  /**
   * The settled value of `readFilePromise(path)` (app.js:171-183): the file's
   * text decoded as UTF-8, or the error `fs.readFile` reported.
   */
  type ReadResult = Result<string>
}

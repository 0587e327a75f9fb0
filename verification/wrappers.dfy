/** Optional values and error-or-value results.

    `Option` stands for a JavaScript value that may be `undefined` or `null`
    (an array read past the end, a search that found nothing); `Result`
    stands for a computation that may throw, carrying the thrown message.
 */
module Wrappers {

  datatype Option<+T> = None | Some(value: T) {

    /** The wrapped value, or `default` when there is none. */
    function GetOr(default: T): T {
      match this
      case Some(v) => v
      case None => default
    }
  }

  datatype Result<+T> = Success(value: T) | Failure(error: string)
}

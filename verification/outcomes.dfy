/** Tagged outcomes shared by every component of the content script.
    The script never throws: each operation answers with an object whose
    `ok` field says whether it succeeded, and a failure carries one of four
    error strings. */
module Outcomes {

  /** An optional value: the script's `null` (or a non-finite number). */
  datatype Option<+T> = None | Some(value: T) {

    /** The value, or `default` when absent (JavaScript's `??`). */
    function GetOr(default: T): T
    {
      match this
      case Some(v) => v
      case None => default
    }
  }

  /** The four error strings a response object can carry. */
  datatype ErrorKind =
    | NotOnEpisode          // "not_on_episode"
    | TimestampUnavailable  // "timestamp_unavailable"
    | ProgressBarNotFound   // "progressbar_not_found"
    | InvalidMs             // "invalid_ms"

  /** `{ ok: true, ... }` carrying a value, or `{ ok: false, error }`. */
  datatype Result<+T> = Ok(value: T) | Err(error: ErrorKind)

}

/** Optional values and fallible results, shared by every module of the model. */
module Options {

  /** A value that may be absent: Rust's `Option`, or a TypeScript value that may be
      `null`/`undefined`. */
  datatype Option<+T> = None | Some(value: T) {

    /** The value, or `default` when absent (Rust's `unwrap_or`, TypeScript's `??`). */
    function GetOr(default: T): T {
      match this
      case Some(v) => v
      case None => default
    }
  }

  /** The outcome of an operation that can fail with a message (Rust's `Result<T, String>`). */
  datatype Result<+T> = Ok(value: T) | Err(error: string)
}

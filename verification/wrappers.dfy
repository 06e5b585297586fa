/** The optional-value and result types used throughout the model: `Option`
    stands for a C# nullable or a JavaScript null, `Result` for a handler that
    either returns a value or raises. */
module Wrappers {

  datatype Option<+T> = None | Some(value: T) {

    /** Returns the value held in Some, or the given default for None
        (C#'s `??` operator). */
    function GetOr(default: T): T {
      match this
      case Some(v) => v
      case None => default
    }
  }

  datatype Result<+T, +E> = Ok(value: T) | Err(error: E)
}

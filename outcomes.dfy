/** Option and Result values for the source's `undefined` results and thrown errors. */
module Outcomes {

  datatype Option<+T> = None | Some(value: T) {
    function GetOr(default: T): T {
      match this
      case Some(v) => v
      case None => default
    }
  }

  /** The errors the engine throws, or would throw, on the paths this model follows. */
  datatype Error =
    | CannotRead          // `readBytes`: the reader delivered fewer bytes than the width
    | ShortCopy           // `copy`: the writer took a different number of bytes than were read
    | StackOverflow       // an absolute seek on a negative or NaN cursor recurses through `length()` forever

  datatype Result<+T> = Ok(value: T) | Err(error: Error)
}

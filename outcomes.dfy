/** The exceptions the modelled code can raise, and a failure-compatible
    result type so that `:-` propagates them the way Python unwinds. */
module Outcomes {

  /** Python exceptions raised by the calibration core. */
  datatype Error =
    | IndexError        // indexing an empty corner `()` or an unknown rotation quadrant
    | EmptyFrame        // a cropped frame with no rows or no columns, which `cv2.resize` and `cv2.imshow` reject

  datatype Result<+T> = Ok(value: T) | Err(error: Error) {
    predicate IsFailure() {
      Err?
    }

    function PropagateFailure<U>(): Result<U>
      requires Err?
    {
      Err(error)
    }

    function Extract(): T
      requires Ok?
    {
      value
    }
  }
}

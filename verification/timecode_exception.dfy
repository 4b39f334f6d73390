/**
 The failures the timecode library reports. `ErrorCase` is the library's own
 error taxonomy, each case with its fixed message; `Raised` says which Java
 exception class carries it, since constructors report bad arguments as
 `IllegalArgumentException` and the arithmetic and parsing report a
 `TimecodeException`.
 */
module TimecodeException {

  datatype ErrorCase =
    | InvalidTimecode
    | InvalidFrameRate
    | InvalidInputFormat
    | FrameCountLess0
    | FrameCountGreaterLimit
    | InvalidAddition
    | InvalidSubtraction
    | ResultGreaterLimit
    | ResultLesserLimit

  function ErrorMessage(e: ErrorCase): string {
    match e
    case InvalidTimecode => "Invalid timecode value"
    case InvalidFrameRate => "Invalid frame rate format"
    case InvalidInputFormat => "Invalid input format. Should be <frameCount> or hh:mm:ss:ff"
    case FrameCountLess0 => "Frame count must be greater than zero"
    case FrameCountGreaterLimit => "Frame count is greater than limit"
    case InvalidAddition => "Addition operation is only valid between instances of the same Timecode class"
    case InvalidSubtraction => "Subtract operation is only valid between instances of the same Timecode class"
    case ResultGreaterLimit => "Result is greater than limit"
    case ResultLesserLimit => "Result value is lesser than limit"
  }

  /** A thrown exception: its Java class, the error case it stands for, and its message. */
  datatype Raised =
    | IllegalArgument(errorCase: ErrorCase, message: string)
    | TimecodeError(errorCase: ErrorCase)
    | NumberFormat(input: string)

  datatype Option<T> = None | Some(value: T)

  /** A value, or the exception thrown instead of returning it. */
  datatype Result<T> = Success(value: T) | Failure(error: Raised) {
    predicate IsFailure() {
      Failure?
    }

    function PropagateFailure<U>(): Result<U>
      requires Failure?
    {
      Failure(error)
    }

    function Extract(): T
      requires Success?
    {
      value
    }
  }
}

/** The error kinds of the production-data engine. Every operation that the
    C++ code ends with `throw std::runtime_error(msg)` returns `Err(e)` here,
    with `Message(e) == msg`. */
module Errors {

  datatype Error =
    | NoValidRegVersion              // a version byte has no layout
    | DataSizeError                  // a whole-dataset buffer does not fit its versions
    | InvalidDataField(name: string) // a field name in no active layout
    | InvalidFieldSize               // a field value of the wrong length
    | CrcFailed                      // a stored register fails its checksum
    | CannotModifyVersion            // an attempt to write a version field
    | CannotReplace                  // a splice that would run past the buffer
    | InvalidDataGiven               // an odd-length hex string

  /** The exception text the source throws for each kind. */
  function Message(e: Error): string {
    match e
    case NoValidRegVersion => "No valid reg version"
    case DataSizeError => "Data size error"
    case InvalidDataField(name) => "Invalid data field: " + name
    case InvalidFieldSize => "Invalid field size"
    case CrcFailed => "Data corrupted:CRC failed"
    case CannotModifyVersion => "Cannot modify register version"
    case CannotReplace => "Cannot replace content of vector with replacement vector"
    case InvalidDataGiven => "Invalid data given"
  }

  /** Failure-compatible result: `:-` propagates the error. */
  datatype Result<+T> = Ok(value: T) | Err(error: Error) {

    predicate IsFailure() {
      Err?
    }

    function PropagateFailure<U>(): Result<U>
      requires Err?
    {
      Err(error)
    }

    function Extract(): T
      requires Ok?
    {
      value
    }
  }
}

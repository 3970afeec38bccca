/** Result and option types shared by every component, and the error classes they carry. */
module Wrappers {

  datatype Option<+T> = None | Some(value: T) {
    function UnwrapOr(default: T): T {
      if Some? then value else default
    }
  }

  /** The error classes of src/error.rs.  Messages, offsets and limits carried by
      its variants are not modelled. */
  datatype Error =
    | UnexpectedEof
    | InvalidOffset
    | MalformedLeb
    | MalformedLine
    | Overflow
    | OutOfRange
    | Limit
    | InvalidFormat
    | InvalidModel
    | ZeroNameOffset
    | UnsupportedInfoType
    | InvalidMagic
    | UnsupportedVersion
    | InvalidAddressOffsetSize
    | InvalidUuidSize
    | UnsupportedStringTableEncoding
    | V1BuildIdTooLong
    | V1LimitExceeded
    | SectionOutOfBounds
    | DuplicateSection
    | ZeroSizedSection
    | MissingSection

  /** A failure-compatible result, so that `:-` plays the part of the `?` operator. */
  datatype Result<+T> = Ok(value: T) | Err(error: Error) {
    predicate IsFailure() {
      Err?
    }

    function PropagateFailure<U>(): Result<U>
      requires Err?
    {
      Err(error)
    }

    function Extract(): T
      requires Ok?
    {
      value
    }
  }

  datatype Unit = Unit
}

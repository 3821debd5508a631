/** The failures the buffer reports, and the two shapes its operations return. */
module Outcomes {

  /** One constructor per distinct error the buffer throws. */
  datatype Error =
    | InvalidBufferLength  // constructor: negative length
    | ViewOutOfBounds      // the typed-array view does not fit its array buffer
    | OffsetOutOfBounds    // check: offset < 0 or offset >= length
    | LengthOutOfBounds    // check: length < 1 or length > buffer length
    | WindowOutOfBounds    // check: offset + length > buffer length
    | ValueOutOfBounds     // a value outside the range of the cell, word or bit
    | Misaligned           // a 16/32-bit offset that is not a multiple of 2/4
    | InvalidStringLength  // zero-length string write, or odd-length hexadecimal text
    | InvalidEncoding      // writeString with an encoding other than utf8 or hex
    | InvalidBigInt        // negative big integer
    | InvalidStart         // writeRange start outside [0, 255]
    | InvalidEnd           // writeRange end outside [0, 255]
    | InvalidWordLength    // swap with a word length below 2
    | OddWordLength        // swap with an odd word length

  /** The result of an operation that only succeeds or throws. */
  datatype Outcome = Pass | Fail(error: Error)

  /** The result of an operation that returns a value or throws. */
  datatype Result<T> = Ok(value: T) | Err(error: Error)

  /** An optional argument. */
  datatype Option<T> = None | Some(value: T)
}

/**
 * The decoder's failures: the four `GFError` kinds of the GF reader, plus the
 * two ways the byte helpers stop a decode (a stream that ends too early, and the
 * assertion that a string length is positive).
 */
module Outcome {

  datatype Error =
    | InvalidGFID
    | YYYWithoutXXX
    | NegativeLengthForSpecial
    | InvalidOpCode
    | UnexpectedEof          // fewer bytes remain than a read needs
    | NonPositiveStringSize  // `read_string` asserts `size > 0`; its panic aborts the decode

  /**
   * The text each failure reports: the `#[error]` strings of `GFError`, the
   * standard library's message for `read_exact` running out of input, and the
   * message of the failed assertion.
   */
  function Message(e: Error): (text: string)
    ensures e == InvalidGFID <==> text == "invalid GF ID"
    ensures e == YYYWithoutXXX <==> text == "yyy without preceding xxx"
    ensures e == NegativeLengthForSpecial <==> text == "negative length for special"
    ensures e == InvalidOpCode <==> text == "invalid opcode"
    ensures e == UnexpectedEof <==> text == "failed to fill whole buffer"
    ensures e == NonPositiveStringSize <==> text == "assertion failed: size > 0"
  {
    match e
    case InvalidGFID => "invalid GF ID"
    case YYYWithoutXXX => "yyy without preceding xxx"
    case NegativeLengthForSpecial => "negative length for special"
    case InvalidOpCode => "invalid opcode"
    case UnexpectedEof => "failed to fill whole buffer"
    case NonPositiveStringSize => "assertion failed: size > 0"
  }

  /** A value or the error that stopped the decode, usable with `:-` like Rust's `?`. */
  datatype Result<+T> = Ok(value: T) | Err(error: Error)
  {
    predicate IsFailure() {
      Err?
    }

    function PropagateFailure<U>(): Result<U>
      requires Err?
    {
      Err(error)
    }

    function Extract(): T
      requires Ok?
    {
      value
    }
  }
}

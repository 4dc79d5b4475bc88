/** Result types, machine integers and the handful of sequence facts shared by every module. */
module Prelude {

  datatype Option<+T> = None | Some(value: T)

  /** The status codes the modelled operations return. */
  datatype Status =
    | BadDecodingError
    | BadEncodingError
    | BadEncodingLimitsExceeded
    | BadUnexpectedError
    | BadNodeIdInvalid
    | BadDataEncodingInvalid
    | BadCommunicationError
    | BadSecurityPolicyRejected
    | BadSequenceNumberInvalid
    | BadSecureChannelIdInvalid
    | BadSecurityChecksFailed

  /** `EncodingResult<T>`: usable with `:-` the way the source uses `?`. */
  datatype Result<+T> = Ok(value: T) | Err(status: Status) {
    predicate IsFailure() { Err? }

    function PropagateFailure<U>(): Result<U>
      requires Err?
    { Err(status) }

    function Extract(): T
      requires Ok?
    { value }
  }

  type u8 = x: int | 0 <= x < 0x100
  type u16 = x: int | 0 <= x < 0x1_0000
  type u32 = x: int | 0 <= x < 0x1_0000_0000
  type u64 = x: int | 0 <= x < 0x1_0000_0000_0000_0000
  type i8 = x: int | -0x80 <= x < 0x80
  type i16 = x: int | -0x8000 <= x < 0x8000
  type i32 = x: int | -0x8000_0000 <= x < 0x8000_0000
  type i64 = x: int | -0x8000_0000_0000_0000 <= x < 0x8000_0000_0000_0000

  type bytes = seq<u8>

  /** `/` of the source on signed integers: truncation toward zero. */
  function TruncDiv(a: int, b: int): int
    requires b > 0
  {
    if a >= 0 then a / b else -((-a) / b)
  }
}

/** The result codes of the library, and the sizes of a context's buffers. */
module Status {
  import opened Bytes

  datatype Error =
    | ErrCrc
    | ErrTimeout
    | ErrInvalidSlave
    | ErrBadParam
    | ErrBufferFull
    | ErrException
    | ErrProtocol
    | ErrState
    | ErrCallback

  /** `PA_OK`, `PA_WAIT` or a positive count of missing bytes, or an error. */
  datatype Status = Ok | Wait(missing: nat) | Err(error: Error)

  datatype Result<+T> = Success(value: T) | Failure(error: Error)

  /** What a framer says about received bytes. */
  datatype Unwrapped = Accepted(pdu: seq<Byte>) | More(missing: nat) | Rejected(error: Error)

  /** The fixed buffers of a context: bytes of packed coils, and registers. */
  const COIL_BYTES := 33
  const REGISTERS := 128
}

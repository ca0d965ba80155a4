/** Fixed-width integers, optional values and outcomes shared by every module. */
module Types {
  type u8 = x: int | 0 <= x < 0x100
  type u16 = x: int | 0 <= x < 0x1_0000
  type u32 = x: int | 0 <= x < 0x1_0000_0000
  type u64 = x: int | 0 <= x < 0x1_0000_0000_0000_0000
  type i64 = x: int | -0x8000_0000_0000_0000 <= x < 0x8000_0000_0000_0000

  datatype Option<+T> = None | Some(value: T)

  /** One kind per exception the C++ code throws. */
  datatype Error =
    | EntryMissing
    | EntryWriteOnly
    | EntryNotWritable
    | TypeMismatch
    | PdoMissing
    | OrdinalOutOfRange
    | NotByteAligned
    | NotInteger
    | PayloadTooLong
    | PayloadTooShort
    | TpdoMissing
    | EmcyDataTooLong
    | NotStarted
    | WriteFailed
    | AlreadyRunning
    | SocketSetupFailed
    | InvalidText
    | InvalidDefaultKey
    | DefaultKeyUnknown

  /** The outcome of an operation that may throw. */
  datatype Result<+T> = Ok(value: T) | Err(error: Error) {
    predicate IsFailure() {
      Err?
    }

    function PropagateFailure<U>(): Result<U>
      requires Err?
    {
      Err(error)
    }

    function Extract(): T
      requires Ok?
    {
      value
    }
  }
}

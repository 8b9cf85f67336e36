/** Optional values, and results for operations that throw in Java or through JNI. */
module Results {

  datatype Option<+T> = None | Some(value: T)

  datatype Exception =
    | AgentVerification
    | Attestation
    | Connect
    | EndOfFile
    | ErrorStatus
    | FieldConversion
    | IllegalArgument
    | IllegalState
    | IndexOutOfBounds
    | InvalidPacketType
    | InvalidPayloadSize
    | InvalidRequestId
    | IO
    | MessageAuthentication
    | MessageVerification
    | MissingField
    | NullPointer
    | UnknownEntity
    | UnsupportedCryptoSuite
    | UnsupportedProtocolVersion

  datatype Result<+T> = Ok(value: T) | Err(error: Exception)
  {
    predicate IsFailure() {
      Err?
    }

    function PropagateFailure<U>(): Result<U>
      requires Err?
    {
      Err(error)
    }

    function Extract(): T
      requires Ok?
    {
      value
    }
  }
}

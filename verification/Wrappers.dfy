/** Failure-compatible result types and the errors the storage engine reports. */
module Wrappers {

  datatype Option<+T> = None | Some(value: T)

  datatype Result<+T, +E> = Ok(value: T) | Err(error: E) {
    predicate IsFailure() {
      Err?
    }

    function PropagateFailure<U>(): Result<U, E>
      requires Err?
    {
      Err(error)
    }

    function Extract(): T
      requires Ok?
    {
      value
    }
  }

  /** One constructor per error the modelled code can return; messages and numeric payloads are dropped. */
  datatype Error =
    | CoreEof
    | InvalidVarint
    | FormatEof
    | BadMagic
    | UnknownFileKind
    | UnsupportedEndian
    | BadHeaderLength
    | UnsupportedFormatVersion
    | HeaderCrcMismatch
    | FrameTooLarge
    | FrameCrcMismatch
    | BadHeader
    | NotFound
    | DuplicateValueId
    | InvalidDelta
    | DeltaLengthMismatch
    | MissingDeltaBase
    | InvalidRecordType
    | UnsupportedRecordVersion
    | UnsupportedCodec
    | UnsupportedDeltaCodec
    | InvalidValueKind
    | InvalidSegmentEntry
    | TooLong
    | TrailingBytes
    | KeysNotStrictlyIncreasing
    | WriterFinished
    | InvalidBlock
    | BadFooter
    | FooterCrcMismatch
    | MissingSegment
    | ChainCycle
    | RowIdMismatch
    | TableIdMismatch
    | InvalidRecord
    | InvalidGroupRefKind
    | InvalidRunEntry
    | UnsupportedEntryTag
    | InvalidIdentifier
    | UnknownDatabase
    | MissingActiveKey
    | MissingKey
    | ScopeMismatch
    | MissingEnvelopeKeyId
    | MissingNonce
    | MissingDerivationSalt
    | AeadFailed
    | InvalidEnvelope
    | MissingValue
    | UnexpectedKind

  type Outcome<+T> = Result<T, Error>
}

/** Failure-compatible result type standing in for the exceptions the signing-block
    utilities throw. Each Java exception class becomes one error kind; the free-text
    messages become small reason tags. */
module Results {

  /** Why a signature or one of its enclosing structures was not found
      (SignatureNotFoundException). */
  datatype NotFoundReason =
    | EocdNotFound
    | Zip64NotSupported
    | CentralDirOutOfRange
    | CentralDirNotFollowedByEocd
    | ApkTooSmall
    | NoSigningBlockMagic
    | BlockSizeOutOfRange
    | BlockOffsetOutOfRange
    | HeaderFooterSizeMismatch
    | EntryTooShort(entry: int)
    | EntrySizeOutOfRange(entry: int)
    | NoBlockWithId(id: int)

  /** Why an IOException was raised. */
  datatype IOReason =
    | NegativeSeek
    | EndOfFile
    | LengthPrefixTooShort
    | NegativeLength
    | FieldLongerThanRemaining
    | MalformedRotationRecord

  /** Why an IllegalArgumentException was raised. */
  datatype ArgumentReason =
    | NegativePosition
    | PositionBeyondLimit
    | LimitOutOfRange
    | BadSliceStart
    | SliceEndBeforeStart
    | SliceEndBeyondCapacity
    | NegativeSize
    | NegativeLengthPrefix
    | NotLittleEndian
    | UnknownSignatureAlgorithm(id: int)
    | UnknownDigestAlgorithm(id: int)

  /** Why a SecurityException was raised; `level` is the 1-based level counter of the
      proof-of-rotation record. */
  datatype SecurityReason =
    | VerityDigestWrongSize
    | ContentSizeMismatch
    | SignatureNotVerified(level: int)
    | SignatureFailure(level: int)
    | AlgorithmIdMismatch(level: int)
    | CertificateDecodeFailed(level: int)
    | DuplicateCertificate(level: int)

  datatype Option<+T> = None | Some(value: T)

  datatype Error =
    | SignatureNotFound(notFound: NotFoundReason)
    | IOError(io: IOReason)
    | BufferUnderflow
    | IndexOutOfBounds
    | IllegalArgument(argument: ArgumentReason)
    | Security(security: SecurityReason)

  datatype Result<+T> = Ok(value: T) | Err(error: Error) {

    predicate IsFailure() {
      Err?
    }

    function PropagateFailure<U>(): Result<U>
      requires Err?
    {
      Err(error)
    }

    function Extract(): T
      requires Ok?
    {
      value
    }
  }
}

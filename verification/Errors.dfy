/** The crate's error enum and the `io::Error` values that carry it. */
module Errors {
  import opened Base

  datatype IoKind = InvalidData | UnexpectedEof | WriteZero | OtherKind(code: nat)

  /** An `io::Error`: a bare kind, or a kind with one of this crate's errors inside. */
  datatype IoError = Plain(kind: IoKind) | Wrapped(kind: IoKind, payload: Error)

  datatype Error =
    | AbsolutePath
    | ParentEscape
    | EmptyPath
    | NulPath
    | MissingBody
    | NonFilePayload
    | InvalidEntryKind
    | BodyLengthMismatch
    | Aborted
    | LimitExceeded(which: string)
    | DisallowedEntryType
    | Malformed
    | Io(cause: IoError)

  /** What one poll of an adapter returned. */
  datatype Poll = Pending | Ready | Failed(error: IoError)

  function MalformedIo(): IoError {
    Wrapped(InvalidData, Malformed)
  }

  function CapError(which: string): IoError {
    Wrapped(InvalidData, LimitExceeded(which))
  }

  /** How `Meter` re-labels a transport failure: same kind, with the original inside. */
  function Transport(kind: IoKind): IoError {
    Wrapped(kind, Io(Plain(kind)))
  }

  /** What a failed read means for the archive, apart from a breach of the total cap. */
  function Describe(error: IoError): Error {
    if error.Wrapped? && error.payload.LimitExceeded? then error.payload
    else if error.Wrapped? && error.payload.DisallowedEntryType? then DisallowedEntryType
    else if error.Wrapped? && error.payload.Io? then Io(error)
    else Malformed
  }

  /** `read_error`: a breach of the total cap explains any failure; else the failure itself does. */
  function ReadError(error: IoError, total: nat, max: nat): Error {
    if total > max then LimitExceeded("max_total_bytes") else Describe(error)
  }
}

/** Options, results and the error values the persistence layer reports. */
module Wrappers {

  datatype Option<+T> = None | Some(value: T)

  /** A success or failure value. `:-` passes a failure on to the caller. */
  datatype Result<+T> = Success(value: T) | Failure(error: PersistError) {
    predicate IsFailure() {
      Failure?
    }

    function PropagateFailure<U>(): Result<U>
      requires Failure?
    {
      Failure(error)
    }

    function Extract(): T
      requires Success?
    {
      value
    }
  }

  /** Why a structurally invalid input was refused. */
  datatype Reason =
    | VectorTooLong
    | RecordTooLong
    | TooManyEntries
    | KeyTooLong
    | StringTooLong
    | UnknownOp
    | UnknownIdKind
    | UnknownValueTag
    | NotUtf8
    | EndedMidField
    | TypeLengthCap
    | DimDisagrees
    | MetricDisagrees
    | CountDisagrees
    | WalDimDisagrees
    | RatioGuard
    | UnknownScheme
    | Malformed

  /** What can go wrong in saving, loading and logging, without paths and message texts. */
  datatype PersistError =
    | Io
    | BadMagic(magic: seq<int>)
    | UnsupportedVersion(version: int, supported: int)
    | ChecksumMismatch(expected: int, computed: int)
    | TruncatedHeader(needed: int)
    | TruncatedPayload(neededPayload: int, found: int)
    | InvalidMetric(tag: int)
    | UnsupportedMetric
    | InvalidIndexType(foundType: seq<int>)
    | InvalidPayload(reason: Reason)
    | CompressionFailed
    | IndexBuild
    | Unsupported
}

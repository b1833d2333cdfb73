/** The decoder's errors: a structural kind that says where in the framing a
    decode failed, optionally wrapping the lower-level error that caused it. */
module Errors {
  import opened Bytes

  /** Why a decimal literal was refused, as Rust's `ParseIntError` reports it. */
  datatype IntErrorKind = Empty | InvalidDigit | PosOverflow

  /** Why a read failed, as `std::io` reports it; reading from a byte stream
      can only run out of bytes. */
  datatype IoErrorKind = UnexpectedEof

  datatype ErrorKind =
    | BadDataStructureCode(literal: seq<Byte>)
    | BadDataTypeCode(literal: seq<Byte>)
    | BadTruncEscSeq(literal: seq<Byte>)
    | BadFieldControl
    | BadDirectoryData
    | InvalidLeader
    | InvalidDDR
    | InvalidDDF(fieldName: seq<Byte>)
    | InvalidDDFS
    | InvalidHeader
    | EmptyFormatControls
    | UnParsable(token: seq<Byte>)
    | ParseIntError(reason: IntErrorKind)
    | UtfError
    | CouldNotParseName
    | CouldNotParseCatalog
    | IOError(ioKind: IoErrorKind)

  /** An error raised directly (`Leaf`), or a kind added as context around the
      error that caused it (`Context`). */
  datatype Error =
    | Leaf(kind: ErrorKind)
    | Context(kind: ErrorKind, cause: Error)

  datatype Result<+T> = Ok(value: T) | Err(error: Error) {
    predicate IsFailure() {
      Err?
    }

    function PropagateFailure<U>(): Result<U>
      requires Err?
    {
      Err(error)
    }

    function Extract(): T
      requires Ok?
    {
      value
    }
  }

  /** `.context(kind)`: a failure gets `kind` wrapped around it, a success is kept. */
  function WithContext<T>(r: Result<T>, kind: ErrorKind): (r': Result<T>)
    ensures r'.Ok? <==> r.Ok?
    ensures r.Ok? ==> r' == r
    ensures r.Err? ==> r'.error == Context(kind, r.error)
  {
    match r
    case Ok(v) => Ok(v)
    case Err(e) => Err(Context(kind, e))
  }
}

/** Error kinds of the codec (src/error.rs) and the failure-compatible
    wrappers every operation returns. */
module Errors {

  /** The only I/O error kind the core raises itself: a byte source that
      ends before the requested bytes or lines were read. */
  datatype IoErrorKind = UnexpectedEof

  datatype PcdError =
    | Io(kind: IoErrorKind)
    | InvalidHeader(line: nat, msg: string)
    | UnsupportedType(what: string)
    | UnsupportedDataFormat(token: string)
    | InvalidDataFormat(msg: string)
    | Decompression(msg: string)
    | LayoutMismatch(expected: nat, got: nat)
    | BufferTooSmall(expected: nat, got: nat)
    | Other(msg: string)

  datatype Result<+T> = Ok(value: T) | Err(error: PcdError) {
    predicate IsFailure() { Err? }

    function PropagateFailure<U>(): Result<U>
      requires Err?
    {
      Err(error)
    }

    function Extract(): T
      requires Ok?
    {
      value
    }
  }

  datatype Option<+T> = None | Some(value: T) {
    predicate IsFailure() { None? }

    function PropagateFailure<U>(): Option<U>
      requires None?
    {
      None
    }

    function Extract(): T
      requires Some?
    {
      value
    }
  }
}

/** Bytes, the fixed tokens of the wire format, and token occurrence. */
module Bytes {

  newtype byte = x: int | 0 <= x < 256

  const CR: byte := 13
  const LF: byte := 10
  const DASH: byte := 45

  /** "\r\n": ends a delimiter line. */
  const CRLF: seq<byte> := [CR, LF]
  /** "\r\n\r\n": ends a header block. */
  const CRLFCRLF: seq<byte> := [CR, LF, CR, LF]
  /** "--": prefixes a boundary, and follows the closing delimiter. */
  const DASHDASH: seq<byte> := [DASH, DASH]

  /** `token` occurs in `s` starting at index `i`. */
  predicate OccursAt(s: seq<byte>, token: seq<byte>, i: nat)
  {
    i + |token| <= |s| && s[i..i + |token|] == token
  }

  /** `i` is the earliest index at which `token` occurs in `s`. */
  predicate FirstOccurrence(s: seq<byte>, token: seq<byte>, i: nat)
  {
    OccursAt(s, token, i) && forall j: nat :: j < i ==> !OccursAt(s, token, j)
  }

  /** `token` occurs nowhere in `s`. */
  ghost predicate Absent(s: seq<byte>, token: seq<byte>)
  {
    forall j: nat :: !OccursAt(s, token, j)
  }
}

/** The error kinds the parser reports, and a result type carrying them. */
module Errors {

  datatype Error =
    | NoRequestContentType
    | NotMultipart
    | BoundaryNotSpecified
    | PartialHeaders
    | Eof
    | Httparse(cause: string)
    | Hyper(cause: string)
    | Io(cause: string)
    | Decoding(message: string)

  datatype Option<T> = None | Some(value: T)

  datatype Result<T, E> = Success(value: T) | Failure(error: E)
}

/** The boundary resolver and the delimiter that ends a part's content. */
module Boundary {
  import opened Bytes
  import opened Errors
  import opened Headers

  /** The first boundary parameter carrying a value, if any. */
  function FirstBoundary(params: seq<(Attr, Value)>): (r: Option<seq<byte>>)
    ensures r.Some? <==> exists i :: 0 <= i < |params| && IsBoundaryParam(params[i])
    ensures r.Some? ==> exists i :: 0 <= i < |params| && params[i] == (Boundary, ValueExt(r.value)) &&
                                    forall j :: 0 <= j < i ==> !IsBoundaryParam(params[j])
  {
    if |params| == 0 then None
    else if IsBoundaryParam(params[0]) then Some(params[0].1.bytes)
    else
      var r := FirstBoundary(params[1..]);
      assert forall i :: 0 < i < |params| ==> params[i] == params[1..][i - 1];
      r
  }

  predicate IsBoundaryParam(p: (Attr, Value))
  {
    p.0 == Boundary && p.1.ValueExt?
  }

  /**
   * The delimiter of a multipart body: "--" followed by the boundary
   * parameter of a multipart Content-Type.
   */
  function GetMultipartBoundary(headers: HeaderSet): (r: Result<seq<byte>, Error>)
    ensures headers.contentType.None? ==> r == Failure(NoRequestContentType)
    ensures headers.contentType.Some? && headers.contentType.value.topLevel != Multipart ==>
              r == Failure(NotMultipart)
    ensures headers.contentType.Some? && headers.contentType.value.topLevel == Multipart ==>
              (match FirstBoundary(headers.contentType.value.params)
               case None => r == Failure(BoundaryNotSpecified)
               case Some(v) => r.Success? && |r.value| == 2 + |v| &&
                               r.value[..2] == DASHDASH && r.value[2..] == v)
  {
    match headers.contentType
    case None => Failure(NoRequestContentType)
    case Some(mime) =>
      if mime.topLevel != Multipart then Failure(NotMultipart)
      else
        match FirstBoundary(mime.params)
        case Some(v) => Success(DASHDASH + v)
        case None => Failure(BoundaryNotSpecified)
  }

  /** "\r\n" followed by the input: the token that ends a part's content. */
  function PrependCrlf(input: seq<byte>): (r: seq<byte>)
    ensures |r| == 2 + |input| && r[..2] == CRLF && r[2..] == input
  {
    CRLF + input
  }
}

/**
 * The recursive multipart parser, as functions over the remaining input.
 * `Inner` is one multipart level; `Loop` is that level's loop, entered just
 * after a delimiter, with the nodes collected so far.
 */
module Parser {
  import opened Bytes
  import opened Errors
  import opened Headers
  import opened Scanner
  import opened Boundary

  /**
   * One parsed part: in memory, streamed to a file, or a nested multipart.
   * A `File` node keeps the bytes the program streams to disk as `content`,
   * so that lemmas and compiled members can state what the file holds; the
   * file itself, its path and its directory are `FileParts.FilePart`, a
   * separate representation this node is not connected to.
   */
  datatype Node =
    | Part(headers: HeaderSet, body: seq<byte>)
    | File(headers: HeaderSet, size: nat, content: seq<byte>)
    | Multipart(headers: HeaderSet, children: seq<Node>)

  /** The nodes of one level, and the input left after it. */
  datatype Level = Level(nodes: seq<Node>, rest: seq<byte>)

  /** How a part is handled. */
  datatype Kind = Nested | FileBacked | InMemory

  /** Header capacity when the request headers are parsed from the stream. */
  const REQUEST_HEADER_CAPACITY: nat := 16
  /** Header capacity for the headers of one part. */
  const PART_HEADER_CAPACITY: nat := 4

  /** The next two bytes are "--": the level is over. */
  predicate AtClose(s: seq<byte>)
  {
    |s| >= 2 && s[..2] == DASHDASH
  }

  /** Hands a scanned header block, with its "\r\n\r\n" put back, to the header parser. */
  function ParseHeaderBlock(parse: HeaderParser, scanned: seq<byte>, capacity: nat): (r: Result<HeaderSet, Error>)
    ensures r.Success? <==> parse(scanned + CRLFCRLF, capacity).Complete?
    ensures r.Success? ==> r.value == parse(scanned + CRLFCRLF, capacity).headers
    ensures r == Failure(PartialHeaders) <==> parse(scanned + CRLFCRLF, capacity).Partial?
    ensures parse(scanned + CRLFCRLF, capacity).SyntaxError? ==>
              r == Failure(Httparse(parse(scanned + CRLFCRLF, capacity).cause))
    ensures parse(scanned + CRLFCRLF, capacity).ConversionError? ==>
              r == Failure(Hyper(parse(scanned + CRLFCRLF, capacity).cause))
  {
    match parse(scanned + CRLFCRLF, capacity)
    case Complete(h) => Success(h)
    case Partial => Failure(PartialHeaders)
    case SyntaxError(cause) => Failure(Httparse(cause))
    case ConversionError(cause) => Failure(Hyper(cause))
  }

  /** The part's Content-Type has top level `multipart`. */
  predicate IsNested(headers: HeaderSet)
  {
    headers.contentType.Some? && headers.contentType.value.topLevel == TopLevel.Multipart
  }

  /** The part declares a filename parameter or is an attachment. */
  predicate IsFile(headers: HeaderSet, alwaysUseFiles: bool)
  {
    alwaysUseFiles ||
    (headers.contentDisposition.Some? &&
     (headers.contentDisposition.value.disposition == Attachment ||
      exists p :: p in headers.contentDisposition.value.parameters && p.Filename?))
  }

  /** The classification `Loop` applies, in its order of precedence. */
  function Classify(headers: HeaderSet, alwaysUseFiles: bool): (r: Kind)
    ensures IsNested(headers) ==> r == Nested
    ensures !IsNested(headers) ==>
              (r == FileBacked <==>
                 alwaysUseFiles ||
                 (headers.contentDisposition.Some? &&
                  (headers.contentDisposition.value.disposition == Attachment ||
                   exists i :: 0 <= i < |headers.contentDisposition.value.parameters| &&
                               headers.contentDisposition.value.parameters[i].Filename?)))
    ensures r == InMemory <==> !IsNested(headers) && !IsFile(headers, alwaysUseFiles)
  {
    if IsNested(headers) then Nested
    else if IsFile(headers, alwaysUseFiles) then FileBacked
    else InMemory
  }

  /** One iteration's outcome: the part's node and the input after it. */
  datatype Step = Step(node: Node, rest: seq<byte>)

  /**
   * One multipart level: resolve the delimiter from `headers`, skip the
   * preamble up to the first delimiter, then run the level's loop.
   */
  function Inner(s: seq<byte>, headers: HeaderSet, alwaysUseFiles: bool, parse: HeaderParser): (r: Result<Level, Error>)
    decreases |s|, 2
    ensures r.Success? ==> |r.value.rest| < |s| && AtClose(r.value.rest)
  {
    match GetMultipartBoundary(headers)
    case Failure(e) => Failure(e)
    case Success(boundary) =>
      var first := StreamUntilToken(s, boundary);
      if !first.found then Failure(Eof)
      else Loop(first.rest, boundary, alwaysUseFiles, parse, [])
  }

  /**
   * The loop of one level, entered right after a delimiter, with `acc`
   * collected so far: stop when "--" follows, otherwise parse one more part.
   */
  function Loop(s: seq<byte>, boundary: seq<byte>, alwaysUseFiles: bool, parse: HeaderParser,
                acc: seq<Node>): (r: Result<Level, Error>)
    requires |boundary| >= 2
    decreases |s|, 1
    ensures r.Success? ==> |r.value.rest| <= |s| && AtClose(r.value.rest)
  {
    if AtClose(s) then Success(Level(acc, s))
    else
      match NextPart(s, boundary, alwaysUseFiles, parse)
      case Failure(e) => Failure(e)
      case Success(step) => Loop(step.rest, boundary, alwaysUseFiles, parse, acc + [step.node])
  }

  /**
   * One iteration of the loop, the "--" check aside: finish the delimiter
   * line, read and parse the header block, then recurse into a nested
   * multipart or copy the content up to "\r\n" and the delimiter.
   */
  function NextPart(s: seq<byte>, boundary: seq<byte>, alwaysUseFiles: bool, parse: HeaderParser): (r: Result<Step, Error>)
    requires |boundary| >= 2
    decreases |s|, 0
    ensures r.Success? ==> |r.value.rest| < |s|
  {
    match ReadPartHeaders(s, parse)
    case Failure(e) => Failure(e)
    case Success(read) =>
      var (partHeaders, body) := read;
      if IsNested(partHeaders) then
        match Inner(body, partHeaders, alwaysUseFiles, parse)
        case Failure(e) => Failure(e)
        case Success(sub) => Success(Step(Node.Multipart(partHeaders, sub.nodes), sub.rest))
      else
        var content := StreamUntilToken(body, PrependCrlf(boundary));
        if !content.found then Failure(Eof)
        else if IsFile(partHeaders, alwaysUseFiles)
        then Success(Step(File(partHeaders, |content.copied|, content.copied), content.rest))
        else Success(Step(Part(partHeaders, content.copied), content.rest))
  }

  /**
   * The start of one part: the rest of the delimiter line up to "\r\n", then
   * the header block up to "\r\n\r\n", parsed; gives the headers and the
   * input after the block.
   */
  function ReadPartHeaders(s: seq<byte>, parse: HeaderParser): (r: Result<(HeaderSet, seq<byte>), Error>)
    ensures r.Success? ==> |r.value.1| + 6 <= |s|
  {
    var line := StreamUntilToken(s, CRLF);
    if !line.found then Failure(Eof)
    else
      var block := StreamUntilToken(line.rest, CRLFCRLF);
      if !block.found then Failure(Eof)
      else
        match ParseHeaderBlock(parse, block.copied, PART_HEADER_CAPACITY)
        case Failure(e) => Failure(e)
        case Success(partHeaders) => Success((partHeaders, block.rest))
  }

  /** Parses a multipart body whose headers were supplied separately. */
  function ParseMultipartBody(s: seq<byte>, headers: HeaderSet, alwaysUseFiles: bool, parse: HeaderParser)
    : (r: Result<seq<Node>, Error>)
    ensures r.Success? <==> Inner(s, headers, alwaysUseFiles, parse).Success?
    ensures r.Success? ==> r.value == Inner(s, headers, alwaysUseFiles, parse).value.nodes
    ensures r.Failure? ==> r.error == Inner(s, headers, alwaysUseFiles, parse).error
  {
    match Inner(s, headers, alwaysUseFiles, parse)
    case Success(level) => Success(level.nodes)
    case Failure(e) => Failure(e)
  }

  /** Parses a multipart message whose headers are still at the start of the stream. */
  function ParseMultipart(s: seq<byte>, alwaysUseFiles: bool, parse: HeaderParser): (r: Result<seq<Node>, Error>)
    ensures !StreamUntilToken(s, CRLFCRLF).found ==> r == Failure(Eof)
    ensures StreamUntilToken(s, CRLFCRLF).found &&
            ParseHeaderBlock(parse, StreamUntilToken(s, CRLFCRLF).copied, REQUEST_HEADER_CAPACITY).Failure? ==>
              r == Failure(ParseHeaderBlock(parse, StreamUntilToken(s, CRLFCRLF).copied, REQUEST_HEADER_CAPACITY).error)
  {
    var head := StreamUntilToken(s, CRLFCRLF);
    if !head.found then Failure(Eof)
    else
      match ParseHeaderBlock(parse, head.copied, REQUEST_HEADER_CAPACITY)
      case Failure(e) => Failure(e)
      case Success(headers) => ParseMultipartBody(head.rest, headers, alwaysUseFiles, parse)
  }
}

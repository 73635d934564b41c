/**
 * The parser as the program runs it: a buffered reader whose cursor each
 * scan advances, and a per-level loop that collects nodes, recursing into
 * nested multiparts. Each method is proved to compute the parser functions.
 */
module StreamParser {
  import opened Bytes
  import opened Errors
  import opened Headers
  import Scanner
  import opened Boundary
  import opened Parser

  /** A reader over the whole input, positioned at `pos`. */
  class Reader {
    const data: seq<byte>
    var pos: nat

    ghost predicate Valid()
      reads this
    {
      pos <= |data|
    }

    /** The input not yet consumed. */
    function Remaining(): seq<byte>
      reads this
      requires Valid()
    {
      data[pos..]
    }

    constructor (data: seq<byte>)
      ensures Valid() && this.data == data && Remaining() == data
    {
      this.data := data;
      pos := 0;
    }

    /** Copies input until `token`, consuming the token when it is found. */
    method StreamUntilToken(token: seq<byte>) returns (copied: seq<byte>, found: bool)
      requires Valid() && |token| > 0
      modifies this
      ensures Valid()
      ensures Scanner.Scan(copied, found, Remaining()) == Scanner.StreamUntilToken(old(Remaining()), token)
    {
      var scan := Scanner.StreamUntilToken(data[pos..], token);
      if scan.found {
        assert data[pos..][|scan.copied| + |token|..] == scan.rest;
        pos := pos + |scan.copied| + |token|;
      } else {
        pos := |data|;
      }
      copied, found := scan.copied, scan.found;
    }

    /** Looks at the next two bytes without consuming them: are they "--"? */
    method PeekClose() returns (close: bool)
      requires Valid()
      ensures close == AtClose(Remaining())
    {
      close := pos + 2 <= |data| && data[pos..pos + 2] == DASHDASH;
      assert close ==> Remaining()[..2] == data[pos..pos + 2];
    }
  }

  /** A level's outcome as the parser functions state it: the nodes and the reader's remaining input. */
  function AsLevel(result: Result<seq<Node>, Error>, rest: seq<byte>): Result<Level, Error>
  {
    match result
    case Success(nodes) => Success(Level(nodes, rest))
    case Failure(e) => Failure(e)
  }

  /** Parses one multipart level from the reader, leaving it in front of the closing "--". */
  method Inner(reader: Reader, headers: HeaderSet, alwaysUseFiles: bool, parse: HeaderParser)
    returns (result: Result<seq<Node>, Error>)
    requires reader.Valid()
    modifies reader
    decreases |reader.data| - reader.pos
    ensures reader.Valid()
    ensures AsLevel(result, reader.Remaining()) ==
            Parser.Inner(old(reader.Remaining()), headers, alwaysUseFiles, parse)
  {
    ghost var spec := Parser.Inner(reader.Remaining(), headers, alwaysUseFiles, parse);
    ghost var start := |reader.Remaining()|;
    var resolved := GetMultipartBoundary(headers);
    if resolved.Failure? {
      return Failure(resolved.error);
    }
    var boundary := resolved.value;
    var crlfBoundary := PrependCrlf(boundary);

    // Skip the preamble and the first delimiter
    var _, found := reader.StreamUntilToken(boundary);
    if !found {
      return Failure(Eof);
    }

    var nodes: seq<Node> := [];
    while true
      invariant reader.Valid()
      invariant |reader.Remaining()| < start
      invariant spec == Loop(reader.Remaining(), boundary, alwaysUseFiles, parse, nodes)
      decreases |reader.Remaining()|
    {
      ghost var here := reader.Remaining();
      var close := reader.PeekClose();
      if close {
        return Success(nodes);
      }

      // The rest of the delimiter line
      var _, foundLine := reader.StreamUntilToken(CRLF);
      if !foundLine {
        return Failure(Eof);
      }

      // The header block
      var block, foundBlock := reader.StreamUntilToken(CRLFCRLF);
      if !foundBlock {
        return Failure(Eof);
      }
      var parsed := ParseHeaderBlock(parse, block, PART_HEADER_CAPACITY);
      if parsed.Failure? {
        return Failure(parsed.error);
      }
      var partHeaders := parsed.value;
      assert ReadPartHeaders(here, parse) == Success((partHeaders, reader.Remaining()));

      if IsNested(partHeaders) {
        var inner := Inner(reader, partHeaders, alwaysUseFiles, parse);
        if inner.Failure? {
          return Failure(inner.error);
        }
        nodes := nodes + [Node.Multipart(partHeaders, inner.value)];
        continue;
      }

      var content, foundContent := reader.StreamUntilToken(crlfBoundary);
      if !foundContent {
        return Failure(Eof);
      }
      if IsFile(partHeaders, alwaysUseFiles) {
        nodes := nodes + [File(partHeaders, |content|, content)];
      } else {
        nodes := nodes + [Part(partHeaders, content)];
      }
    }
  }

  /** `parse_multipart_body`: the headers were supplied separately. */
  method ParseMultipartBody(stream: seq<byte>, headers: HeaderSet, alwaysUseFiles: bool, parse: HeaderParser)
    returns (result: Result<seq<Node>, Error>)
    ensures result == Parser.ParseMultipartBody(stream, headers, alwaysUseFiles, parse)
  {
    var reader := new Reader(stream);
    result := Inner(reader, headers, alwaysUseFiles, parse);
    BodyOfLevel(result, reader.Remaining(), stream, headers, alwaysUseFiles, parse);
  }

  /** `parse_multipart`: the request headers are still at the start of the stream. */
  method ParseMultipart(stream: seq<byte>, alwaysUseFiles: bool, parse: HeaderParser)
    returns (result: Result<seq<Node>, Error>)
    ensures result == Parser.ParseMultipart(stream, alwaysUseFiles, parse)
  {
    var reader := new Reader(stream);
    ghost var head := Scanner.StreamUntilToken(stream, CRLFCRLF);
    var buf, found := reader.StreamUntilToken(CRLFCRLF);
    assert buf == head.copied && found == head.found && reader.Remaining() == head.rest;
    if !found {
      return Failure(Eof);
    }
    var parsed := ParseHeaderBlock(parse, buf, REQUEST_HEADER_CAPACITY);
    if parsed.Failure? {
      return Failure(parsed.error);
    }
    assert Parser.ParseMultipart(stream, alwaysUseFiles, parse) ==
           Parser.ParseMultipartBody(head.rest, parsed.value, alwaysUseFiles, parse);
    result := Inner(reader, parsed.value, alwaysUseFiles, parse);
    BodyOfLevel(result, reader.Remaining(), head.rest, parsed.value, alwaysUseFiles, parse);
  }

  /** A level's outcome, without the input left after it, is the entry point's result. */
  lemma BodyOfLevel(result: Result<seq<Node>, Error>, rest: seq<byte>,
                    s: seq<byte>, headers: HeaderSet, alwaysUseFiles: bool, parse: HeaderParser)
    requires AsLevel(result, rest) == Parser.Inner(s, headers, alwaysUseFiles, parse)
    ensures result == Parser.ParseMultipartBody(s, headers, alwaysUseFiles, parse)
  {
  }
}

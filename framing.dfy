/**
 * Well-formed input: a level whose parts are laid out as the wire format
 * prescribes parses into exactly one node per part, in order, each holding
 * exactly that part's body.
 */
module Framing {
  import opened Bytes
  import opened Errors
  import opened Headers
  import opened Scanner
  import opened Boundary
  import opened Parser
  import opened ParserProperties

  /**
   * One part on the wire, after its delimiter: the rest of the delimiter
   * line, the header block and the body.
   */
  datatype FramedPart = FramedPart(line: seq<byte>, block: seq<byte>, body: seq<byte>)

  /** The bytes of one part, through the next delimiter. */
  function FramedOne(p: FramedPart, boundary: seq<byte>): seq<byte>
  {
    p.line + CRLF + p.block + CRLFCRLF + p.body + PrependCrlf(boundary)
  }

  /** The bytes of a run of parts; each ends with "\r\n" and the next delimiter. */
  function Framed(parts: seq<FramedPart>, boundary: seq<byte>): seq<byte>
  {
    if parts == [] then [] else FramedOne(parts[0], boundary) + Framed(parts[1..], boundary)
  }

  /**
   * A part is well framed when its delimiter line does not start with "--",
   * each token first occurs where the layout puts it, and its header block
   * parses to headers that are not multipart.
   */
  ghost predicate WellFramed(part: FramedPart, boundary: seq<byte>, parse: HeaderParser)
  {
    && |boundary| >= 2
    && !AtClose(part.line + CRLF)
    && FirstOccurrence(part.line + CRLF, CRLF, |part.line|)
    && FirstOccurrence(part.block + CRLFCRLF, CRLFCRLF, |part.block|)
    && FirstOccurrence(part.body + PrependCrlf(boundary), PrependCrlf(boundary), |part.body|)
    && parse(part.block + CRLFCRLF, PART_HEADER_CAPACITY).Complete?
    && !IsNested(parse(part.block + CRLFCRLF, PART_HEADER_CAPACITY).headers)
  }

  /** The node a part with a parsable header block becomes. */
  ghost function Expected(part: FramedPart, alwaysUseFiles: bool, parse: HeaderParser): Node
    requires parse(part.block + CRLFCRLF, PART_HEADER_CAPACITY).Complete?
  {
    var h := parse(part.block + CRLFCRLF, PART_HEADER_CAPACITY).headers;
    if IsFile(h, alwaysUseFiles) then File(h, |part.body|, part.body) else Part(h, part.body)
  }

  /** Every part of the run is well framed. */
  ghost predicate AllWellFramed(parts: seq<FramedPart>, boundary: seq<byte>, parse: HeaderParser)
  {
    parts == [] || (WellFramed(parts[0], boundary, parse) && AllWellFramed(parts[1..], boundary, parse))
  }

  /** The nodes a run of well-framed parts becomes, one per part, in order. */
  ghost function ExpectedAll(parts: seq<FramedPart>, boundary: seq<byte>, alwaysUseFiles: bool, parse: HeaderParser)
    : (r: seq<Node>)
    requires AllWellFramed(parts, boundary, parse)
    ensures |r| == |parts|
  {
    if parts == [] then []
    else [Expected(parts[0], alwaysUseFiles, parse)] + ExpectedAll(parts[1..], boundary, alwaysUseFiles, parse)
  }

  /** One well-framed part is one loop iteration, yielding its expected node. */
  lemma FramedStep(p: FramedPart, more: seq<byte>, boundary: seq<byte>, alwaysUseFiles: bool, parse: HeaderParser)
    requires WellFramed(p, boundary, parse)
    ensures !AtClose(FramedOne(p, boundary) + more)
    ensures NextPart(FramedOne(p, boundary) + more, boundary, alwaysUseFiles, parse) ==
            Success(Step(Expected(p, alwaysUseFiles, parse), more))
  {
    var cb := PrependCrlf(boundary);
    var s := FramedOne(p, boundary) + more;
    assert s == p.line + CRLF + p.block + CRLFCRLF + (p.body + cb + more);
    assert s == (p.line + CRLF) + (p.block + CRLFCRLF + p.body + cb + more);
    assert s[..2] == (p.line + CRLF)[..2];
    var h := parse(p.block + CRLFCRLF, PART_HEADER_CAPACITY).headers;
    HeadersExact(p.line, p.block, p.body + cb + more, parse, h);
    PartContentExact(s, p.body, more, boundary, alwaysUseFiles, parse, h);
  }

  lemma FramedCons(parts: seq<FramedPart>, boundary: seq<byte>, tail: seq<byte>)
    requires parts != []
    ensures Framed(parts, boundary) + tail == FramedOne(parts[0], boundary) + (Framed(parts[1..], boundary) + tail)
  {
  }

  /** A loop that is not at "--" runs one iteration and goes on from its rest. */
  lemma LoopStep(s: seq<byte>, boundary: seq<byte>, alwaysUseFiles: bool, parse: HeaderParser, acc: seq<Node>)
    requires |boundary| >= 2 && !AtClose(s) && NextPart(s, boundary, alwaysUseFiles, parse).Success?
    ensures var step := NextPart(s, boundary, alwaysUseFiles, parse).value;
            Loop(s, boundary, alwaysUseFiles, parse, acc) == Loop(step.rest, boundary, alwaysUseFiles, parse, acc + [step.node])
  {
  }

  /** The loop over well-framed parts followed by the closing "--" yields one node per part, in order. */
  lemma {:induction false} LoopOverFramed(parts: seq<FramedPart>, tail: seq<byte>, boundary: seq<byte>,
                                         alwaysUseFiles: bool, parse: HeaderParser, acc: seq<Node>)
    requires |boundary| >= 2 && AtClose(tail)
    requires AllWellFramed(parts, boundary, parse)
    decreases |parts|
    ensures Loop(Framed(parts, boundary) + tail, boundary, alwaysUseFiles, parse, acc) ==
            Success(Level(acc + ExpectedAll(parts, boundary, alwaysUseFiles, parse), tail))
  {
    if parts == [] {
      assert Framed(parts, boundary) + tail == tail;
      assert Loop(tail, boundary, alwaysUseFiles, parse, acc) == Success(Level(acc, tail));
      assert acc + ExpectedAll(parts, boundary, alwaysUseFiles, parse) == acc;
    } else {
      var p := parts[0];
      var more := Framed(parts[1..], boundary) + tail;
      var s := Framed(parts, boundary) + tail;
      var e := Expected(p, alwaysUseFiles, parse);
      FramedCons(parts, boundary, tail);
      FramedStep(p, more, boundary, alwaysUseFiles, parse);
      assert !AtClose(s) && NextPart(s, boundary, alwaysUseFiles, parse) == Success(Step(e, more));
      LoopStep(s, boundary, alwaysUseFiles, parse, acc);
      assert Loop(s, boundary, alwaysUseFiles, parse, acc) == Loop(more, boundary, alwaysUseFiles, parse, acc + [e]);
      LoopOverFramed(parts[1..], tail, boundary, alwaysUseFiles, parse, acc + [e]);
      var later := ExpectedAll(parts[1..], boundary, alwaysUseFiles, parse);
      assert ExpectedAll(parts, boundary, alwaysUseFiles, parse) == [e] + later;
      AppendAssociates(acc, [e], later);
    }
  }

  /**
   * A body laid out as preamble, delimiter, well-framed parts, "--" and
   * epilogue parses into exactly one node per part, in input order, each
   * with the part's headers and exactly its body.
   */
  lemma WellFramedBody(preamble: seq<byte>, parts: seq<FramedPart>, epilogue: seq<byte>,
                       headers: HeaderSet, alwaysUseFiles: bool, parse: HeaderParser)
    requires GetMultipartBoundary(headers).Success?
    requires FirstOccurrence(preamble + GetMultipartBoundary(headers).value,
                             GetMultipartBoundary(headers).value, |preamble|)
    requires AllWellFramed(parts, GetMultipartBoundary(headers).value, parse)
    ensures var boundary := GetMultipartBoundary(headers).value;
            var body := preamble + boundary + Framed(parts, boundary) + DASHDASH + epilogue;
            ParseMultipartBody(body, headers, alwaysUseFiles, parse) ==
            Success(ExpectedAll(parts, boundary, alwaysUseFiles, parse))
  {
    var boundary := GetMultipartBoundary(headers).value;
    var tail := DASHDASH + epilogue;
    AppendAssociates(preamble + boundary, Framed(parts, boundary), DASHDASH);
    AppendAssociates(preamble + boundary, Framed(parts, boundary) + DASHDASH, epilogue);
    AppendAssociates(Framed(parts, boundary), DASHDASH, epilogue);
    assert tail[..2] == DASHDASH;
    FramedLevel(preamble, parts, tail, headers, alwaysUseFiles, parse);
  }

  /**
   * Well-framed parts in front of anything: the loop yields their nodes, in
   * order, and carries on from what follows them.
   */
  lemma {:induction false} LoopSkipsFramed(parts: seq<FramedPart>, more: seq<byte>, boundary: seq<byte>,
                                          alwaysUseFiles: bool, parse: HeaderParser, acc: seq<Node>)
    requires |boundary| >= 2
    requires AllWellFramed(parts, boundary, parse)
    decreases |parts|
    ensures Loop(Framed(parts, boundary) + more, boundary, alwaysUseFiles, parse, acc) ==
            Loop(more, boundary, alwaysUseFiles, parse, acc + ExpectedAll(parts, boundary, alwaysUseFiles, parse))
  {
    if parts == [] {
      assert Framed(parts, boundary) + more == more;
      assert acc + ExpectedAll(parts, boundary, alwaysUseFiles, parse) == acc;
    } else {
      var p := parts[0];
      var rest := Framed(parts[1..], boundary) + more;
      var s := Framed(parts, boundary) + more;
      var e := Expected(p, alwaysUseFiles, parse);
      FramedCons(parts, boundary, more);
      FramedStep(p, rest, boundary, alwaysUseFiles, parse);
      LoopStep(s, boundary, alwaysUseFiles, parse, acc);
      LoopSkipsFramed(parts[1..], more, boundary, alwaysUseFiles, parse, acc + [e]);
      var later := ExpectedAll(parts[1..], boundary, alwaysUseFiles, parse);
      assert ExpectedAll(parts, boundary, alwaysUseFiles, parse) == [e] + later;
      AppendAssociates(acc, [e], later);
    }
  }

  /**
   * A level, outermost or nested, laid out as preamble, its delimiter and
   * well-framed parts, stopping in front of "--": its nodes are one per
   * part, in order, and the "--" is left unconsumed.
   */
  lemma FramedLevel(preamble: seq<byte>, parts: seq<FramedPart>, tail: seq<byte>,
                    headers: HeaderSet, alwaysUseFiles: bool, parse: HeaderParser)
    requires GetMultipartBoundary(headers).Success? && AtClose(tail)
    requires FirstOccurrence(preamble + GetMultipartBoundary(headers).value,
                             GetMultipartBoundary(headers).value, |preamble|)
    requires AllWellFramed(parts, GetMultipartBoundary(headers).value, parse)
    ensures var boundary := GetMultipartBoundary(headers).value;
            Inner(preamble + boundary + (Framed(parts, boundary) + tail), headers, alwaysUseFiles, parse) ==
            Success(Level(ExpectedAll(parts, boundary, alwaysUseFiles, parse), tail))
  {
    var boundary := GetMultipartBoundary(headers).value;
    var after := Framed(parts, boundary) + tail;
    ScanSplits(preamble, boundary, after);
    InnerUnfolds(preamble + boundary + after, headers, alwaysUseFiles, parse);
    LoopOverFramed(parts, tail, boundary, alwaysUseFiles, parse, []);
    assert [] + ExpectedAll(parts, boundary, alwaysUseFiles, parse) == ExpectedAll(parts, boundary, alwaysUseFiles, parse);
  }

  /**
   * A part whose headers are multipart becomes a `Multipart` node holding
   * exactly the nodes of its level, and the input goes on where that level
   * stopped.
   */
  lemma NestedFramed(line: seq<byte>, block: seq<byte>, after: seq<byte>, boundary: seq<byte>,
                     alwaysUseFiles: bool, parse: HeaderParser, headers: HeaderSet, children: seq<Node>, tail: seq<byte>)
    requires |boundary| >= 2
    requires FirstOccurrence(line + CRLF, CRLF, |line|)
    requires FirstOccurrence(block + CRLFCRLF, CRLFCRLF, |block|)
    requires parse(block + CRLFCRLF, PART_HEADER_CAPACITY) == Complete(headers) && IsNested(headers)
    requires Inner(after, headers, alwaysUseFiles, parse) == Success(Level(children, tail))
    ensures NextPart(line + CRLF + block + CRLFCRLF + after, boundary, alwaysUseFiles, parse) ==
            Success(Step(Node.Multipart(headers, children), tail))
  {
    HeadersExact(line, block, after, parse, headers);
    NextPartUnfolds(line + CRLF + block + CRLFCRLF + after, boundary, alwaysUseFiles, parse);
  }

  /**
   * A body whose well-framed parts are followed by one nested multipart,
   * itself a well-framed level: the nodes are one per outer part, then one
   * `Multipart` node whose children are one per inner part, all in input
   * order; the outer level ends at the inner level's "--".
   */
  lemma NestedLastBody(preamble: seq<byte>, parts: seq<FramedPart>, headers: HeaderSet,
                       line: seq<byte>, block: seq<byte>, nestedHeaders: HeaderSet,
                       innerPreamble: seq<byte>, innerParts: seq<FramedPart>, tail: seq<byte>,
                       alwaysUseFiles: bool, parse: HeaderParser)
    requires GetMultipartBoundary(headers).Success?
    requires FirstOccurrence(preamble + GetMultipartBoundary(headers).value,
                             GetMultipartBoundary(headers).value, |preamble|)
    requires AllWellFramed(parts, GetMultipartBoundary(headers).value, parse)
    requires !AtClose(line + CRLF)
    requires FirstOccurrence(line + CRLF, CRLF, |line|)
    requires FirstOccurrence(block + CRLFCRLF, CRLFCRLF, |block|)
    requires parse(block + CRLFCRLF, PART_HEADER_CAPACITY) == Complete(nestedHeaders) && IsNested(nestedHeaders)
    requires GetMultipartBoundary(nestedHeaders).Success?
    requires FirstOccurrence(innerPreamble + GetMultipartBoundary(nestedHeaders).value,
                             GetMultipartBoundary(nestedHeaders).value, |innerPreamble|)
    requires AllWellFramed(innerParts, GetMultipartBoundary(nestedHeaders).value, parse)
    requires AtClose(tail)
    ensures var boundary := GetMultipartBoundary(headers).value;
            var innerBoundary := GetMultipartBoundary(nestedHeaders).value;
            var nested := line + CRLF + block + CRLFCRLF +
                          (innerPreamble + innerBoundary + (Framed(innerParts, innerBoundary) + tail));
            ParseMultipartBody(preamble + boundary + (Framed(parts, boundary) + nested), headers, alwaysUseFiles, parse) ==
            Success(ExpectedAll(parts, boundary, alwaysUseFiles, parse) +
                    [Node.Multipart(nestedHeaders, ExpectedAll(innerParts, innerBoundary, alwaysUseFiles, parse))])
  {
    var boundary := GetMultipartBoundary(headers).value;
    var innerBoundary := GetMultipartBoundary(nestedHeaders).value;
    var after := innerPreamble + innerBoundary + (Framed(innerParts, innerBoundary) + tail);
    var nested := line + CRLF + block + CRLFCRLF + after;
    var children := ExpectedAll(innerParts, innerBoundary, alwaysUseFiles, parse);
    var outer := ExpectedAll(parts, boundary, alwaysUseFiles, parse);
    FramedLevel(innerPreamble, innerParts, tail, nestedHeaders, alwaysUseFiles, parse);
    NestedPartEndsLoop(line, block, after, boundary, alwaysUseFiles, parse, nestedHeaders, children, tail, outer);
    LevelSkipsFramed(preamble, parts, nested, headers, alwaysUseFiles, parse);
  }

  /** A level's preamble, delimiter and well-framed parts: the loop goes on after them with their nodes. */
  lemma LevelSkipsFramed(preamble: seq<byte>, parts: seq<FramedPart>, more: seq<byte>,
                         headers: HeaderSet, alwaysUseFiles: bool, parse: HeaderParser)
    requires GetMultipartBoundary(headers).Success?
    requires FirstOccurrence(preamble + GetMultipartBoundary(headers).value,
                             GetMultipartBoundary(headers).value, |preamble|)
    requires AllWellFramed(parts, GetMultipartBoundary(headers).value, parse)
    ensures var boundary := GetMultipartBoundary(headers).value;
            Inner(preamble + boundary + (Framed(parts, boundary) + more), headers, alwaysUseFiles, parse) ==
            Loop(more, boundary, alwaysUseFiles, parse, ExpectedAll(parts, boundary, alwaysUseFiles, parse))
  {
    var boundary := GetMultipartBoundary(headers).value;
    var rest := Framed(parts, boundary) + more;
    ScanSplits(preamble, boundary, rest);
    InnerUnfolds(preamble + boundary + rest, headers, alwaysUseFiles, parse);
    LoopSkipsFramed(parts, more, boundary, alwaysUseFiles, parse, []);
    assert [] + ExpectedAll(parts, boundary, alwaysUseFiles, parse) == ExpectedAll(parts, boundary, alwaysUseFiles, parse);
  }

  /** A nested part in front of the loop: one `Multipart` node, and the level ends where the nested one did. */
  lemma NestedPartEndsLoop(line: seq<byte>, block: seq<byte>, after: seq<byte>, boundary: seq<byte>,
                           alwaysUseFiles: bool, parse: HeaderParser, headers: HeaderSet,
                           children: seq<Node>, tail: seq<byte>, acc: seq<Node>)
    requires |boundary| >= 2 && !AtClose(line + CRLF)
    requires FirstOccurrence(line + CRLF, CRLF, |line|)
    requires FirstOccurrence(block + CRLFCRLF, CRLFCRLF, |block|)
    requires parse(block + CRLFCRLF, PART_HEADER_CAPACITY) == Complete(headers) && IsNested(headers)
    requires Inner(after, headers, alwaysUseFiles, parse) == Success(Level(children, tail))
    ensures Loop(line + CRLF + block + CRLFCRLF + after, boundary, alwaysUseFiles, parse, acc) ==
            Success(Level(acc + [Node.Multipart(headers, children)], tail))
  {
    var nested := line + CRLF + block + CRLFCRLF + after;
    var node := Node.Multipart(headers, children);
    NestedFramed(line, block, after, boundary, alwaysUseFiles, parse, headers, children, tail);
    AppendAssociates(line + CRLF, block + CRLFCRLF, after);
    AppendAssociates(line + CRLF, block, CRLFCRLF);
    NotAtCloseExtended(line + CRLF, block + CRLFCRLF + after);
    LoopStep(nested, boundary, alwaysUseFiles, parse, acc);
    assert AtClose(tail);
    assert Loop(tail, boundary, alwaysUseFiles, parse, acc + [node]) == Success(Level(acc + [node], tail));
  }

  /** Whether "--" comes next is decided by the first two bytes. */
  lemma NotAtCloseExtended(x: seq<byte>, y: seq<byte>)
    requires |x| >= 2 && !AtClose(x)
    ensures !AtClose(x + y)
  {
    assert (x + y)[..2] == x[..2];
  }
}

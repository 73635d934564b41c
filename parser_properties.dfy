/** Properties of the multipart parser: order, the nested-level quirk, exact content and truncation. */
module ParserProperties {
  import opened Bytes
  import opened Errors
  import opened Headers
  import opened Scanner
  import opened Boundary
  import opened Parser

  /** The loop's result with `acc` put in front of its nodes. */
  function Prepend(acc: seq<Node>, r: Result<Level, Error>): Result<Level, Error>
  {
    match r
    case Success(lv) => Success(Level(acc + lv.nodes, lv.rest))
    case Failure(e) => Failure(e)
  }

  /** A level with a resolvable delimiter: skip to the first delimiter, then loop. */
  lemma InnerUnfolds(s: seq<byte>, headers: HeaderSet, alwaysUseFiles: bool, parse: HeaderParser)
    requires GetMultipartBoundary(headers).Success?
    ensures var boundary := GetMultipartBoundary(headers).value;
            var first := StreamUntilToken(s, boundary);
            |boundary| >= 2 &&
            Inner(s, headers, alwaysUseFiles, parse) ==
            if first.found then Loop(first.rest, boundary, alwaysUseFiles, parse, []) else Failure(Eof)
  {
  }

  /** An iteration whose header block was read: recurse, or copy up to "\r\n" and the delimiter. */
  lemma NextPartUnfolds(s: seq<byte>, boundary: seq<byte>, alwaysUseFiles: bool, parse: HeaderParser)
    requires |boundary| >= 2 && ReadPartHeaders(s, parse).Success?
    ensures var (h, after) := ReadPartHeaders(s, parse).value;
            var content := StreamUntilToken(after, PrependCrlf(boundary));
            NextPart(s, boundary, alwaysUseFiles, parse) ==
            if IsNested(h) then
              (match Inner(after, h, alwaysUseFiles, parse)
               case Failure(e) => Failure(e)
               case Success(sub) => Success(Step(Node.Multipart(h, sub.nodes), sub.rest)))
            else if !content.found then Failure(Eof)
            else if IsFile(h, alwaysUseFiles) then Success(Step(File(h, |content.copied|, content.copied), content.rest))
            else Success(Step(Part(h, content.copied), content.rest))
  {
  }

  /**
   * `parse_multipart` on request headers ending at their first "\r\n\r\n":
   * the header parser sees exactly those headers with the token put back,
   * with capacity 16, and the rest of the stream is parsed as the body.
   */
  lemma ParseMultipartSplits(head: seq<byte>, body: seq<byte>, alwaysUseFiles: bool, parse: HeaderParser)
    requires FirstOccurrence(head + CRLFCRLF, CRLFCRLF, |head|)
    ensures ParseMultipart(head + CRLFCRLF + body, alwaysUseFiles, parse) ==
            match ParseHeaderBlock(parse, head, REQUEST_HEADER_CAPACITY)
            case Failure(e) => Failure(e)
            case Success(headers) => ParseMultipartBody(body, headers, alwaysUseFiles, parse)
  {
    ScanSplits(head, CRLFCRLF, body);
  }

  /**
   * The nodes collected so far play no part in the loop's decisions: a run
   * from `acc` is a run from nothing with `acc` in front, so every node is
   * appended after the earlier ones, in input order.
   */
  lemma {:induction false} LoopAppendsInOrder(s: seq<byte>, boundary: seq<byte>, alwaysUseFiles: bool,
                                             parse: HeaderParser, acc: seq<Node>)
    requires |boundary| >= 2
    decreases |s|
    ensures Loop(s, boundary, alwaysUseFiles, parse, acc) ==
            Prepend(acc, Loop(s, boundary, alwaysUseFiles, parse, []))
  {
    if AtClose(s) {
      assert acc + [] == acc;
    } else {
      match NextPart(s, boundary, alwaysUseFiles, parse)
      case Failure(_) =>
      case Success(step) =>
        assert [] + [step.node] == [step.node];
        LoopAppendsInOrder(step.rest, boundary, alwaysUseFiles, parse, acc + [step.node]);
        LoopAppendsInOrder(step.rest, boundary, alwaysUseFiles, parse, [step.node]);
        PrependTwice(acc, [step.node], Loop(step.rest, boundary, alwaysUseFiles, parse, []));
    }
  }

  lemma PrependTwice(a: seq<Node>, b: seq<Node>, r: Result<Level, Error>)
    ensures Prepend(a + b, r) == Prepend(a, Prepend(b, r))
  {
    if r.Success? {
      assert a + b + r.value.nodes == a + (b + r.value.nodes);
    }
  }

  /**
   * The node a successful iteration produces is of the kind `Classify`
   * picks: a nested multipart first, then a file, otherwise in memory.
   */
  lemma NextPartFollowsClassify(s: seq<byte>, boundary: seq<byte>, alwaysUseFiles: bool, parse: HeaderParser)
    requires |boundary| >= 2
    requires NextPart(s, boundary, alwaysUseFiles, parse).Success?
    ensures var node := NextPart(s, boundary, alwaysUseFiles, parse).value.node;
            var kind := Classify(ReadPartHeaders(s, parse).value.0, alwaysUseFiles);
            && node.headers == ReadPartHeaders(s, parse).value.0
            && (node.Multipart? <==> kind == Nested)
            && (node.File? <==> kind == FileBacked)
            && (node.Part? <==> kind == InMemory)
  {
  }

  /**
   * After a nested multipart the enclosing level ends: the nested level
   * stops in front of its own closing "--" without consuming it, and the
   * enclosing loop sees those same two dashes next.
   */
  lemma NestedEndsLevel(s: seq<byte>, boundary: seq<byte>, alwaysUseFiles: bool,
                        parse: HeaderParser, acc: seq<Node>)
    requires |boundary| >= 2 && !AtClose(s)
    requires NextPart(s, boundary, alwaysUseFiles, parse).Success?
    requires NextPart(s, boundary, alwaysUseFiles, parse).value.node.Multipart?
    ensures var step := NextPart(s, boundary, alwaysUseFiles, parse).value;
            Loop(s, boundary, alwaysUseFiles, parse, acc) == Success(Level(acc + [step.node], step.rest))
  {
    var step := NextPart(s, boundary, alwaysUseFiles, parse).value;
    assert AtClose(step.rest);
  }

  /** In the nodes one level collects, a nested multipart can only come last. */
  lemma {:induction false} MultipartOnlyLast(s: seq<byte>, boundary: seq<byte>, alwaysUseFiles: bool,
                                            parse: HeaderParser, acc: seq<Node>)
    requires |boundary| >= 2
    requires Loop(s, boundary, alwaysUseFiles, parse, acc).Success?
    requires forall i :: 0 <= i < |acc| ==> !acc[i].Multipart?
    decreases |s|
    ensures var nodes := Loop(s, boundary, alwaysUseFiles, parse, acc).value.nodes;
            forall i :: 0 <= i < |nodes| - 1 ==> !nodes[i].Multipart?
  {
    if !AtClose(s) {
      var step := NextPart(s, boundary, alwaysUseFiles, parse).value;
      if step.node.Multipart? {
        NestedEndsLevel(s, boundary, alwaysUseFiles, parse, acc);
      } else {
        MultipartOnlyLast(step.rest, boundary, alwaysUseFiles, parse, acc + [step.node]);
      }
    }
  }

  /**
   * The part's headers are those the header parser makes of the bytes up to
   * the first "\r\n\r\n" after the delimiter line, with that token put back.
   */
  lemma HeadersExact(line: seq<byte>, block: seq<byte>, rest: seq<byte>, parse: HeaderParser, h: HeaderSet)
    requires FirstOccurrence(line + CRLF, CRLF, |line|)
    requires FirstOccurrence(block + CRLFCRLF, CRLFCRLF, |block|)
    requires parse(block + CRLFCRLF, PART_HEADER_CAPACITY) == Complete(h)
    ensures ReadPartHeaders(line + CRLF + block + CRLFCRLF + rest, parse) == Success((h, rest))
  {
    var s2 := block + CRLFCRLF + rest;
    assert line + CRLF + block + CRLFCRLF + rest == line + CRLF + s2;
    ScanSplits(line, CRLF, s2);
    ScanSplits(block, CRLFCRLF, rest);
  }

  /** The converse: successful header reading always took that shape. */
  lemma HeadersDecomposition(s: seq<byte>, parse: HeaderParser) returns (line: seq<byte>, block: seq<byte>)
    requires ReadPartHeaders(s, parse).Success?
    ensures var (h, rest) := ReadPartHeaders(s, parse).value;
            && s == line + CRLF + block + CRLFCRLF + rest
            && FirstOccurrence(line + CRLF, CRLF, |line|)
            && FirstOccurrence(block + CRLFCRLF, CRLFCRLF, |block|)
            && parse(block + CRLFCRLF, PART_HEADER_CAPACITY) == Complete(h)
  {
    var l := StreamUntilToken(s, CRLF);
    var b := StreamUntilToken(l.rest, CRLFCRLF);
    line, block := l.copied, b.copied;
    var h := ParseHeaderBlock(parse, block, PART_HEADER_CAPACITY).value;
    assert ReadPartHeaders(s, parse).value == (h, b.rest);
    assert s == (line + CRLF) + l.rest && l.rest == (block + CRLFCRLF) + b.rest;
    AppendAssociates(line + CRLF, block + CRLFCRLF, b.rest);
    AppendAssociates(line + CRLF, block, CRLFCRLF);
    FirstOccurrenceInPrefix(line + CRLF, l.rest, CRLF, |line|);
    FirstOccurrenceInPrefix(block + CRLFCRLF, b.rest, CRLFCRLF, |block|);
  }

  /**
   * A part that is not a nested multipart holds exactly the bytes after its
   * header block and before the next "\r\n" + delimiter, which is consumed;
   * a file part records their count as its size.
   */
  lemma PartContentExact(s: seq<byte>, body: seq<byte>, rest: seq<byte>,
                         boundary: seq<byte>, alwaysUseFiles: bool, parse: HeaderParser, h: HeaderSet)
    requires |boundary| >= 2
    requires ReadPartHeaders(s, parse) == Success((h, body + PrependCrlf(boundary) + rest)) && !IsNested(h)
    requires FirstOccurrence(body + PrependCrlf(boundary), PrependCrlf(boundary), |body|)
    ensures NextPart(s, boundary, alwaysUseFiles, parse) ==
            Success(Step(if IsFile(h, alwaysUseFiles) then File(h, |body|, body) else Part(h, body), rest))
  {
    ScanSplits(body, PrependCrlf(boundary), rest);
  }

  /**
   * The converse: whenever a part is copied to memory or to a file, its
   * bytes are exactly those after its header block and before the first
   * "\r\n" + delimiter that follows.
   */
  lemma PartDecomposition(s: seq<byte>, boundary: seq<byte>, alwaysUseFiles: bool, parse: HeaderParser)
    requires |boundary| >= 2
    requires NextPart(s, boundary, alwaysUseFiles, parse).Success?
    requires !NextPart(s, boundary, alwaysUseFiles, parse).value.node.Multipart?
    ensures var step := NextPart(s, boundary, alwaysUseFiles, parse).value;
            var body := if step.node.Part? then step.node.body else step.node.content;
            && ReadPartHeaders(s, parse) == Success((step.node.headers, body + PrependCrlf(boundary) + step.rest))
            && FirstOccurrence(body + PrependCrlf(boundary), PrependCrlf(boundary), |body|)
            && (step.node.File? ==> step.node.size == |body|)
  {
    var token := PrependCrlf(boundary);
    var (h, after) := ReadPartHeaders(s, parse).value;
    var c := StreamUntilToken(after, token);
    FirstOccurrenceInPrefix(c.copied + token, c.rest, token, |c.copied|);
  }

  lemma AppendAssociates<T>(a: seq<T>, b: seq<T>, c: seq<T>)
    ensures a + b + c == a + (b + c)
  {
  }
}

/**
 * Truncation: an input cut off anywhere before the closing "--" of a level
 * has been read in full fails with `Eof`, never with a partial result.
 */
module Truncation {
  import opened Bytes
  import opened Errors
  import opened Headers
  import opened Scanner
  import opened Boundary
  import opened Parser
  import opened ParserProperties

  /** Reading a part's headers from a prefix: the same headers if the cut lies after the block, `Eof` otherwise. */
  lemma ReadHeadersOfPrefix(s: seq<byte>, p: seq<byte>, parse: HeaderParser)
    requires p <= s && ReadPartHeaders(s, parse).Success?
    ensures var (h, after) := ReadPartHeaders(s, parse).value;
            if |s| - |p| <= |after|
            then ReadPartHeaders(p, parse).Success? && ReadPartHeaders(p, parse).value.0 == h &&
                 ReadPartHeaders(p, parse).value.1 <= after &&
                 |after| - |ReadPartHeaders(p, parse).value.1| == |s| - |p|
            else ReadPartHeaders(p, parse) == Failure(Eof)
  {
    var ls := StreamUntilToken(s, CRLF);
    var bs := StreamUntilToken(ls.rest, CRLFCRLF);
    if |ls.copied| + 2 <= |p| {
      ScanOfPrefixFound(s, p, CRLF);
      var lp := StreamUntilToken(p, CRLF);
      if |bs.copied| + 4 <= |lp.rest| {
        ScanOfPrefixFound(ls.rest, lp.rest, CRLFCRLF);
      } else {
        ScanOfPrefixMissing(ls.rest, lp.rest, CRLFCRLF);
      }
    } else {
      ScanOfPrefixMissing(s, p, CRLF);
    }
  }

  /**
   * The public entry point on a body cut off before its closing "--" is
   * complete: `Eof`, and no nodes at all.
   */
  lemma ParseMultipartBodyOfTruncated(s: seq<byte>, p: seq<byte>, headers: HeaderSet,
                                      alwaysUseFiles: bool, parse: HeaderParser)
    requires p <= s
    requires Inner(s, headers, alwaysUseFiles, parse).Success?
    requires |s| - |p| > |Inner(s, headers, alwaysUseFiles, parse).value.rest| - 2
    ensures ParseMultipartBody(p, headers, alwaysUseFiles, parse) == Failure(Eof)
  {
    InnerOfTruncated(s, p, headers, alwaysUseFiles, parse);
  }

  /**
   * `parse_multipart` on a stream cut off anywhere before the closing "--"
   * of its body is complete: `Eof`, and no nodes at all, whether the cut
   * falls in the request headers or in the body.
   */
  lemma ParseMultipartOfTruncated(s: seq<byte>, p: seq<byte>, alwaysUseFiles: bool, parse: HeaderParser)
    requires p <= s
    requires StreamUntilToken(s, CRLFCRLF).found
    requires ParseHeaderBlock(parse, StreamUntilToken(s, CRLFCRLF).copied, REQUEST_HEADER_CAPACITY).Success?
    requires var head := StreamUntilToken(s, CRLFCRLF);
             var headers := ParseHeaderBlock(parse, head.copied, REQUEST_HEADER_CAPACITY).value;
             Inner(head.rest, headers, alwaysUseFiles, parse).Success? &&
             |s| - |p| > |Inner(head.rest, headers, alwaysUseFiles, parse).value.rest| - 2
    ensures ParseMultipart(p, alwaysUseFiles, parse) == Failure(Eof)
  {
    var head := StreamUntilToken(s, CRLFCRLF);
    var headers := ParseHeaderBlock(parse, head.copied, REQUEST_HEADER_CAPACITY).value;
    if |head.copied| + 4 <= |p| {
      ScanOfPrefixFound(s, p, CRLFCRLF);
      var headP := StreamUntilToken(p, CRLFCRLF);
      InnerOfTruncated(head.rest, headP.rest, headers, alwaysUseFiles, parse);
    } else {
      ScanOfPrefixMissing(s, p, CRLFCRLF);
    }
  }

  /**
   * A level whose run on `s` ends in front of rest `R` fails with `Eof` on
   * every prefix of `s` that stops before the two closing dashes are complete.
   */
  lemma {:induction false} InnerOfTruncated(s: seq<byte>, p: seq<byte>, headers: HeaderSet,
                                           alwaysUseFiles: bool, parse: HeaderParser)
    requires p <= s
    requires Inner(s, headers, alwaysUseFiles, parse).Success?
    requires |s| - |p| > |Inner(s, headers, alwaysUseFiles, parse).value.rest| - 2
    decreases |s|, 2
    ensures Inner(p, headers, alwaysUseFiles, parse) == Failure(Eof)
  {
    var boundary := GetMultipartBoundary(headers).value;
    InnerUnfolds(s, headers, alwaysUseFiles, parse);
    InnerUnfolds(p, headers, alwaysUseFiles, parse);
    var fs := StreamUntilToken(s, boundary);
    if |fs.copied| + |boundary| <= |p| {
      ScanOfPrefixFound(s, p, boundary);
      var fp := StreamUntilToken(p, boundary);
      LoopOfTruncated(fs.rest, fp.rest, boundary, alwaysUseFiles, parse, [], []);
    } else {
      ScanOfPrefixMissing(s, p, boundary);
    }
  }

  /** The same for the loop of a level, whatever nodes either run has collected. */
  lemma {:induction false} LoopOfTruncated(s: seq<byte>, p: seq<byte>, boundary: seq<byte>,
                                          alwaysUseFiles: bool, parse: HeaderParser,
                                          acc: seq<Node>, accP: seq<Node>)
    requires |boundary| >= 2 && p <= s
    requires Loop(s, boundary, alwaysUseFiles, parse, acc).Success?
    requires |s| - |p| > |Loop(s, boundary, alwaysUseFiles, parse, acc).value.rest| - 2
    decreases |s|, 1
    ensures Loop(p, boundary, alwaysUseFiles, parse, accP) == Failure(Eof)
  {
    if AtClose(s) {
      assert |p| < 2;
      ScanOfPrefixMissing(s, p, CRLF);
      assert ReadPartHeaders(p, parse) == Failure(Eof);
    } else {
      assert |p| >= 2 ==> p[..2] == s[..2];
      var step := NextPart(s, boundary, alwaysUseFiles, parse).value;
      if step.node.Multipart? {
        NextPartOfTruncated(s, p, boundary, alwaysUseFiles, parse);
      } else if |s| - |p| <= |step.rest| {
        NextPartOfTruncated(s, p, boundary, alwaysUseFiles, parse);
        var stepP := NextPart(p, boundary, alwaysUseFiles, parse).value;
        LoopOfTruncated(step.rest, stepP.rest, boundary, alwaysUseFiles, parse,
                        acc + [step.node], accP + [stepP.node]);
      } else {
        NextPartOfTruncated(s, p, boundary, alwaysUseFiles, parse);
      }
    }
  }

  /**
   * One part read from a prefix: the same node if the cut lies after the
   * part, `Eof` if it lies inside. A nested part is only ever cut inside:
   * its level ends the enclosing one, so the cut falls before its dashes.
   */
  lemma {:induction false} NextPartOfTruncated(s: seq<byte>, p: seq<byte>, boundary: seq<byte>,
                                              alwaysUseFiles: bool, parse: HeaderParser)
    requires |boundary| >= 2 && p <= s
    requires NextPart(s, boundary, alwaysUseFiles, parse).Success?
    requires var step := NextPart(s, boundary, alwaysUseFiles, parse).value;
             step.node.Multipart? ==> |s| - |p| > |step.rest| - 2
    decreases |s|, 0
    ensures var step := NextPart(s, boundary, alwaysUseFiles, parse).value;
            if !step.node.Multipart? && |s| - |p| <= |step.rest|
            then NextPart(p, boundary, alwaysUseFiles, parse).Success? &&
                 NextPart(p, boundary, alwaysUseFiles, parse).value.node == step.node &&
                 NextPart(p, boundary, alwaysUseFiles, parse).value.rest <= step.rest &&
                 |step.rest| - |NextPart(p, boundary, alwaysUseFiles, parse).value.rest| == |s| - |p|
            else NextPart(p, boundary, alwaysUseFiles, parse) == Failure(Eof)
  {
    var step := NextPart(s, boundary, alwaysUseFiles, parse).value;
    var (h, after) := ReadPartHeaders(s, parse).value;
    ReadHeadersOfPrefix(s, p, parse);
    NextPartUnfolds(s, boundary, alwaysUseFiles, parse);
    if |s| - |p| <= |after| {
      var afterP := ReadPartHeaders(p, parse).value.1;
      NextPartUnfolds(p, boundary, alwaysUseFiles, parse);
      if IsNested(h) {
        InnerOfTruncated(after, afterP, h, alwaysUseFiles, parse);
      } else {
        var token := PrependCrlf(boundary);
        var cs := StreamUntilToken(after, token);
        if |cs.copied| + |token| <= |afterP| {
          ScanOfPrefixFound(after, afterP, token);
        } else {
          ScanOfPrefixMissing(after, afterP, token);
        }
      }
    }
  }
}

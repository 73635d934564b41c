# mime-multipart, modelled in Dafny

A model of the core of the Rust crate `mime-multipart`: the parser that
turns a `multipart/*` body (RFC 2046 section 5.1.1, RFC 7578 section 4.1)
into a tree of nodes, plus the small pieces the parser relies on.

- **Delimiter.** `get_multipart_boundary` resolves the delimiter `"--" ++ boundary`
  from the Content-Type. `prepend_crlf` turns it into the token that ends a part's content.
- **Scanner.** `stream_until_token` splits the remaining input at the earliest
  occurrence of a token.
- **Parser.** One multipart level:
  - skip the preamble up to the first delimiter;
  - stop when the next two bytes are `--`, without consuming them;
  - otherwise finish the delimiter line, read the part's header block up to `"\r\n\r\n"`
    and hand it to the header parser with that token put back;
  - classify the part as a nested multipart (recurse), a file or an in-memory part;
  - copy its content up to `"\r\n" ++ delimiter`.
- **Entry points.** `parse_multipart` first reads the request headers from the stream
  (header capacity 16). `parse_multipart_body` takes them as an argument. Part headers
  have capacity 4.
- **Filenames.** `FilePart::filename` and `get_content_disposition_filename` take the
  first Filename parameter and decode it through the charset table of `charset_decode`.
- **File parts.** `FilePart::new` creates a fresh temporary directory named
  `mime_multipart.<nonce>` and picks a path in it. Its `Drop` removes the file, then
  the directory.

The parser exists twice:
- `Parser`: functions over the remaining input. `Inner`, `Loop` and `NextPart` are
  mutually recursive; they terminate on the measure (remaining length, rank), since
  every iteration of a level consumes input and `Loop` only returns at "--".
- `StreamParser`: what the program does. A `Reader` class has a cursor that every scan
  advances. `Inner` is a method whose `while` loop collects nodes and recurses into
  nested multiparts. Each method is proved to compute the corresponding `Parser` function.

The properties proved about the functions:
- exact content and size of each part, and the converse decomposition;
- classification priority;
- input order of nodes;
- the nested-level quirk: the closing `--` of a nested level is peeked, never consumed,
  so the enclosing level ends right after any nested multipart;
- `Eof` and no nodes from both entry points on every input cut off before the body's
  closing `--`;
- theorems that a well-framed level yields exactly one node per part, and that a nested
  multipart part becomes a `Multipart` node whose children are the nested level's nodes.

The header parser (`httparse` plus hyper's `Headers::from_raw`) is a function parameter
`HeaderParser` from bytes and header capacity to `Complete(headers)`, `Partial`, or one
of two errors. The encoding library's strict decoders are a parameter `Decoder`. Headers
are an abstract record: an optional Content-Type (top level, sub level, parameters) and
an optional Content-Disposition (disposition type, parameters).

Where the wire-format description and the code differ, the model follows the code:
- only CRLF line endings are recognised;
- every missing token — first delimiter, CRLF after a delimiter, end of a header block,
  end of content — is the single error `Eof`, not a distinct kind of truncation.

## Model

| member | source | states |
|---|---|---|
| Scanner.FindFrom | src/lib.rs:193-194 | the index found is the earliest occurrence of the token at or after the start; none means the token occurs nowhere after it |
| Scanner.StreamUntilToken | src/lib.rs:206-212 | when found, input == copied ++ token ++ rest and the token first occurs right after `copied`; when not found, everything was copied, nothing is left and the token is absent |
| Scanner.FoundIffFirstOccurrence | src/lib.rs:193-194 | the scan splits at index i exactly when i is the first occurrence of the token (both directions) |
| Scanner.ScanSplits | src/lib.rs:276-278 | a token first occurring after x splits x ++ token ++ y into copied x and rest y |
| Scanner.ScanOfPrefixFound | src/lib.rs:266-267 | scanning a prefix that contains the first occurrence copies the same bytes, and its rest is a prefix of the full rest |
| Scanner.ScanOfPrefixMissing | src/lib.rs:266-267 | scanning a prefix that ends before the first occurrence is completed does not find the token |
| Boundary.FirstBoundary | src/lib.rs:302-309 | a value is found iff some parameter is a Boundary with a value, and it is the first such parameter |
| Boundary.GetMultipartBoundary | src/lib.rs:289-311 | NoRequestContentType without Content-Type, NotMultipart for another top level, BoundaryNotSpecified without boundary parameter, otherwise exactly "--" ++ v with length 2 + \|v\| for the first boundary value v |
| Boundary.PrependCrlf | src/lib.rs:313-318 | the result is "\r\n" followed by the input, 2 bytes longer |
| Charsets.EncodingFor | src/lib.rs:339-370 | the table refuses exactly the unsupported charsets; an Ext charset is accepted only when its name is exactly "UTF-8", as UTF-8, and is otherwise refused with "Encoding is not supported" |
| Charsets.CharsetDecode | src/filepart.rs:92-123 | an unsupported charset fails with the table's message whatever the bytes and decoder; a supported one is decoded by its encoding; an Ext name other than "UTF-8" fails with "Encoding is not supported" |
| Charsets.FindFilename | src/lib.rs:322-326 | the index found is the first Filename parameter; none means there is no Filename parameter |
| Charsets.DecodedFilename | src/lib.rs:328-331 | a decoded filename is Ok(Some(name)) exactly when the charset decoding succeeds, and a decoding failure becomes Decoding(message) with the decoder's message |
| Charsets.GetContentDispositionFilename | src/filepart.rs:74-88 | Ok(None) without a Filename parameter; otherwise the first Filename parameter decoded in its charset, a decoding failure wrapped as Decoding(message) |
| FileParts.Filename | src/filepart.rs:50-56 | Ok(None) without Content-Disposition, otherwise the Content-Disposition's filename |
| Parser.ParseHeaderBlock | src/lib.rs:214-225 | succeeds iff the header parser reports Complete on the scanned bytes with "\r\n\r\n" put back, with exactly those headers; fails with PartialHeaders iff it reports Partial; a syntax error becomes Httparse(cause) and a conversion error Hyper(cause) |
| Parser.Classify | src/lib.rs:227-259 | a multipart Content-Type always means nested; otherwise file iff always-use-files, or the disposition is Attachment, or some disposition parameter is a Filename; otherwise in memory |
| Parser.Inner | src/lib.rs:180-195 | a successful level consumes input and stops in front of a closing "--" |
| Parser.Loop | src/lib.rs:196-203 | a successful loop stops in front of "--" without consuming more than its input |
| Parser.NextPart | src/lib.rs:205-285 | every successful iteration consumes input |
| Parser.ParseMultipartBody | src/lib.rs:168-178 | succeeds exactly when the level succeeds, with that level's nodes and its error otherwise |
| Parser.ParseMultipart | src/lib.rs:128-156 | Eof when the stream has no "\r\n\r\n"; a failure to parse the request headers is returned as is |
| Parser.ReadPartHeaders | src/lib.rs:205-225 | a successful header read consumes at least the CRLF and CRLFCRLF tokens |
| ParserProperties.ParseMultipartSplits | src/lib.rs:138-154 | for request headers ending at their first "\r\n\r\n", the header parser sees them with that token put back and capacity 16, and the rest of the stream is parsed as the body with the headers found |
| ParserProperties.NextPartFollowsClassify | src/lib.rs:227-284 | the node an iteration yields carries the part's headers and is Multipart, File or Part exactly as the classification says |
| ParserProperties.LoopAppendsInOrder | src/lib.rs:237-283 | the nodes collected so far do not influence the loop: a run from acc is the run from nothing with acc in front, so nodes appear in input order |
| ParserProperties.NestedEndsLevel | src/lib.rs:237-243 | after a nested multipart the enclosing level returns at once, leaving the nested level's "--" unconsumed |
| ParserProperties.MultipartOnlyLast | src/lib.rs:196-243 | in the nodes of one level a nested multipart can only be the last node |
| ParserProperties.HeadersExact | src/lib.rs:205-225 | a delimiter line, a header block and its "\r\n\r\n" are consumed, and the headers are the parser's result on that block |
| ParserProperties.HeadersDecomposition | src/lib.rs:205-225 | every successful header read had exactly that layout, each token at its first occurrence |
| ParserProperties.PartContentExact | src/lib.rs:260-283 | content is exactly the bytes before the first "\r\n" ++ delimiter, which is consumed; a file part's size is their count |
| ParserProperties.PartDecomposition | src/lib.rs:260-283 | every File or Part node holds exactly the bytes between its header block and the first following "\r\n" ++ delimiter |
| Truncation.ReadHeadersOfPrefix | src/lib.rs:205-212 | on a prefix, a header read gives the same headers if the cut is after the block, and Eof otherwise |
| Truncation.ParseMultipartOfTruncated | src/lib.rs:138-154 | parse_multipart on a stream cut off before its body's closing "--" is complete returns Eof and no nodes, whether the cut falls in the request headers or in the body |
| Truncation.InnerOfTruncated | src/lib.rs:189-194 | a level cut off anywhere before its closing "--" is complete fails with Eof |
| Truncation.LoopOfTruncated | src/lib.rs:196-285 | the loop on such a prefix fails with Eof, whatever nodes were collected |
| Truncation.NextPartOfTruncated | src/lib.rs:205-283 | on a prefix, an in-memory or file part cut after its content yields the same node and a prefix of the full rest; cut earlier, or a nested part cut before its closing "--", gives Eof |
| Truncation.ParseMultipartBodyOfTruncated | src/lib.rs:168-178 | the public entry point on a truncated body returns Eof and no nodes |
| Framing.LoopOverFramed | src/lib.rs:196-285 | a run of well-framed parts followed by "--" gives one node per part, in order, each with its headers and exact body |
| Framing.LoopSkipsFramed | src/lib.rs:196-285 | well-framed parts in front of any input yield their nodes in order, and the loop carries on after them |
| Framing.FramedLevel | src/lib.rs:180-285 | a level (outermost or nested) of preamble, delimiter and well-framed parts stopping at "--" yields one node per part, in order, leaving the "--" unconsumed |
| Framing.NestedFramed | src/lib.rs:227-243 | a part with multipart headers becomes a Multipart node holding exactly the nodes of its level, and the input goes on where that level stopped |
| Framing.NestedPartEndsLoop | src/lib.rs:237-243 | a nested part met by the loop adds one Multipart node and ends the enclosing level where the nested one stopped |
| Framing.NestedLastBody | src/lib.rs:168-285 | well-framed parts followed by one nested well-framed level give one node per outer part, then a Multipart node whose children are one node per inner part, in input order |
| Framing.WellFramedBody | src/lib.rs:168-285 | preamble, delimiter, well-framed parts, "--" and epilogue parse into exactly one node per part, in input order |
| StreamParser.Reader.constructor | src/lib.rs:174 | a new reader is positioned at the start of the stream |
| StreamParser.Reader.StreamUntilToken | src/lib.rs:193-194 | the copied bytes, the found flag and the reader's new remaining input are the scan of the old remaining input |
| StreamParser.Reader.PeekClose | src/lib.rs:198-203 | true exactly when the next two bytes are "--"; consumes nothing |
| StreamParser.Inner | src/lib.rs:180-286 | the nodes (or error) and the reader's remaining input are those of Parser.Inner on the input it started from |
| StreamParser.ParseMultipartBody | src/lib.rs:168-178 | the result is Parser.ParseMultipartBody of the stream |
| StreamParser.ParseMultipart | src/lib.rs:128-156 | the result is Parser.ParseMultipart of the stream, whose header/body split and truncation behaviour ParseMultipartSplits and ParseMultipartOfTruncated state |
| FileParts.CreateTempDir | src/filepart.rs:37 | a new directory `mime_multipart.<nonce>` inside an existing root, for the first nonce whose name is free (every earlier candidate is taken); an Io error when the root is missing or every candidate is taken |
| FileParts.NewFilePart | src/filepart.rs:35-46 | the part keeps the headers, has size 0, its path's parent is its new temporary directory, and nothing but that directory was created |
| FileParts.NewFilePartIsFresh | src/filepart.rs:35-46 | on well-formed storage the new directory is empty and the file does not exist yet |
| FileParts.CreateFile | src/lib.rs:263 | creates the file iff its directory exists and the path is not a directory |
| FileParts.RemoveFile | src/filepart.rs:67 | removes the path from the files; reports whether it existed |
| FileParts.RemoveDir | src/filepart.rs:68 | removes the directory iff it exists and is empty; otherwise nothing changes |
| FileParts.Drop | src/filepart.rs:65-70 | removes the file, then the directory exactly when it exists and is empty once the file is gone; otherwise the directories are unchanged |
| FileParts.DropRemoves | src/filepart.rs:65-70 | after drop the file is gone, the directory is gone when the file was all it held, and nothing else changed |
| FileParts.DirectoryFirstWouldLeak | src/filepart.rs:65-70 | removing the directory before the file would fail and leave the directory behind |
| FileParts.LifecycleLeavesNoTrace | src/lib.rs:260-268 | a part created, given its file and dropped leaves storage exactly as before |
| FileParts.DropWithoutFileLeavesNoTrace | src/lib.rs:262-263 | a part whose file was never created leaves storage exactly as before once dropped |

## Left out

- Real I/O: the `BufReader` with its 4096-byte buffer, `fill_buf` and writes to disk. The stream is a byte sequence; the peek sees the whole remaining input.
- The refill edge: a real `fill_buf` returning fewer than 2 bytes at a buffer boundary is not modelled.
- The implementation of `stream_until_token` (crate `buf_read_ext`). Only the behaviour the parser relies on is modelled: split at the earliest occurrence.
- Header tokenising and typing (`httparse`, hyper's `Headers`, `Mime`, `ContentDisposition`) are the `HeaderParser` parameter and an abstract header record.
- The encoding library's decoders are the `Decoder` parameter; only which charset maps to which decoder is modelled.
- `TextNonce` randomness: the directory nonces and the file nonce are parameters. `TempDir::new`'s retry on a taken name is the walk through the nonce list.
- Parser.NextPart: a file-backed part does not call `FilePart::new` or `File::create` inside the parser. Their Io failures are not among the parser's outcomes, and the `File` node keeps the streamed bytes as `content` instead of a path. The file lifecycle is modelled separately in `FileParts`.
- The disk is a set of file paths and a set of directory paths; file contents are not tracked.
- Content-Transfer-Encoding is not handled by the code either.
- Writing multipart bodies and generating boundaries are not part of the parsing core.
- LF-only line endings are not accepted by the code.
- `content_type` accessors only clone a header.
- src/error.rs is not part of this model. Its `Error` variants are declared in `Errors`, and the httparse, hyper, Io and decoding causes are carried as strings.
- Sizes are unbounded naturals, not `usize`.
- Recursion depth is not bounded: deeply nested input in the program could exhaust the stack.
- Parser.Inner: the ensures state only progress and where a level stops. What a level returns is stated by the lemmas in `ParserProperties`, `Truncation` and `Framing`.
- Parser.Loop: the ensures state only that the loop stops in front of "--" within its input. What it collects is stated by `LoopAppendsInOrder`, `LoopSkipsFramed`, `LoopOverFramed` and the truncation lemmas.

/**
 * The typed header fields the core reads: Content-Type (a MIME type with
 * parameters) and Content-Disposition (a kind with parameters). Any other
 * header a part carries plays no role in parsing and is not represented.
 */
module Headers {
  import opened Bytes
  import opened Errors

  datatype TopLevel =
    | Star | Text | Image | Audio | Video | Application | Multipart | Message | Model
    | TopLevelExt(name: string)

  datatype Attr = CharsetAttr | Boundary | Q | AttrExt(name: string)

  /** A parameter value; an `Ext` value is kept as the bytes of its text. */
  datatype Value = Utf8 | ValueExt(bytes: seq<byte>)

  /** A MIME type: top level, sub level and parameters, in header order. */
  datatype Mime = Mime(topLevel: TopLevel, subLevel: string, params: seq<(Attr, Value)>)

  /** The character sets a Content-Disposition filename parameter may declare. */
  datatype Charset =
    | Us_Ascii
    | Iso_8859_1 | Iso_8859_2 | Iso_8859_3 | Iso_8859_4 | Iso_8859_5
    | Iso_8859_6 | Iso_8859_7 | Iso_8859_8 | Iso_8859_9 | Iso_8859_10
    | Shift_Jis | Euc_Jp | Iso_2022_Kr | Euc_Kr | Iso_2022_Jp | Iso_2022_Jp_2
    | Iso_8859_6_E | Iso_8859_6_I | Iso_8859_8_E | Iso_8859_8_I
    | Gb2312 | Big5 | Koi8_R
    | CharsetExt(name: string)

  datatype DispositionType = Inline | Attachment | DispositionExt(name: string)

  datatype DispositionParam =
    | Filename(charset: Charset, language: Option<string>, bytes: seq<byte>)
    | ParamExt(name: string, value: string)

  datatype ContentDisposition =
    ContentDisposition(disposition: DispositionType, parameters: seq<DispositionParam>)

  /** The headers of a request or of one part, as the typed accessors see them. */
  datatype HeaderSet = HeaderSet(contentType: Option<Mime>, contentDisposition: Option<ContentDisposition>)

  /**
   * What the external header-block parser reports for a raw block: the typed
   * headers, "more room needed" (the block holds more headers than the
   * capacity allows), a syntax error, or a typed-header conversion error.
   */
  datatype HeaderParse =
    | Complete(headers: HeaderSet)
    | Partial
    | SyntaxError(cause: string)
    | ConversionError(cause: string)

  /** The external parser, given a raw block and a header capacity. */
  type HeaderParser = (seq<byte>, nat) -> HeaderParse
}

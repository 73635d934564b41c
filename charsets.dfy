/**
 * Filename decoding: the charset table, and the lookup of the filename
 * parameter of a Content-Disposition header.
 */
module Charsets {
  import opened Bytes
  import opened Errors
  import opened Headers

  /** The decoders the encoding library provides. */
  datatype Encoding =
    | ASCII | ISO_8859_1 | ISO_8859_2 | ISO_8859_3 | ISO_8859_4 | ISO_8859_5
    | ISO_8859_6 | ISO_8859_7 | ISO_8859_8 | ISO_8859_10
    | EUC_JP | ISO_2022_JP | BIG5_2003 | KOI8_R | UTF_8

  /** A strict decoder of the encoding library: the text, or why the bytes are invalid. */
  type Decoder = (Encoding, seq<byte>) -> Result<string, string>

  /** The decoder a charset maps to, or the message it is refused with. */
  function EncodingFor(charset: Charset): (r: Result<Encoding, string>)
    ensures r.Failure? <==> Unsupported(charset)
    ensures charset.CharsetExt? ==> (r.Success? <==> charset.name == "UTF-8")
    ensures charset.CharsetExt? && r.Success? ==> r.value == UTF_8
    ensures charset.CharsetExt? && r.Failure? ==> r.error == "Encoding is not supported"
  {
    match charset
    case Us_Ascii => Success(ASCII)
    case Iso_8859_1 => Success(ISO_8859_1)
    case Iso_8859_2 => Success(ISO_8859_2)
    case Iso_8859_3 => Success(ISO_8859_3)
    case Iso_8859_4 => Success(ISO_8859_4)
    case Iso_8859_5 => Success(ISO_8859_5)
    case Iso_8859_6 => Success(ISO_8859_6)
    case Iso_8859_7 => Success(ISO_8859_7)
    case Iso_8859_8 => Success(ISO_8859_8)
    case Iso_8859_9 => Failure("ISO_8859_9 is not supported")
    case Iso_8859_10 => Success(ISO_8859_10)
    case Shift_Jis => Failure("Shift_Jis is not supported")
    case Euc_Jp => Success(EUC_JP)
    case Iso_2022_Kr => Failure("Iso_2022_Kr is not supported")
    case Euc_Kr => Failure("Euc_Kr is not supported")
    case Iso_2022_Jp => Success(ISO_2022_JP)
    case Iso_2022_Jp_2 => Failure("Iso_2022_Jp_2 is not supported")
    case Iso_8859_6_E => Failure("Iso_8859_6_E is not supported")
    case Iso_8859_6_I => Failure("Iso_8859_6_I is not supported")
    case Iso_8859_8_E => Failure("Iso_8859_8_E is not supported")
    case Iso_8859_8_I => Failure("Iso_8859_8_I is not supported")
    case Gb2312 => Failure("Gb2312 is not supported")
    case Big5 => Success(BIG5_2003)
    case Koi8_R => Success(KOI8_R)
    case CharsetExt(name) =>
      if name == "UTF-8" then Success(UTF_8) else Failure("Encoding is not supported")
  }

  /** The charsets the table refuses whatever the bytes. */
  predicate Unsupported(charset: Charset)
  {
    charset in {Iso_8859_9, Shift_Jis, Iso_2022_Kr, Euc_Kr, Iso_2022_Jp_2,
                Iso_8859_6_E, Iso_8859_6_I, Iso_8859_8_E, Iso_8859_8_I, Gb2312}
    || (charset.CharsetExt? && charset.name != "UTF-8")
  }

  /**
   * Decodes bytes declared in `charset` strictly, or says why it cannot: an
   * unsupported charset fails with the table's message whatever the bytes
   * and the decoder; a supported one is decoded by its encoding's decoder.
   */
  function CharsetDecode(charset: Charset, bytes: seq<byte>, decode: Decoder): (r: Result<string, string>)
    ensures Unsupported(charset) ==> r == Failure(EncodingFor(charset).error)
    ensures !Unsupported(charset) ==> r == decode(EncodingFor(charset).value, bytes)
    ensures charset.CharsetExt? && charset.name != "UTF-8" ==> r == Failure("Encoding is not supported")
    ensures charset == CharsetExt("UTF-8") ==> r == decode(UTF_8, bytes)
  {
    match EncodingFor(charset)
    case Success(e) => decode(e, bytes)
    case Failure(message) => Failure(message)
  }

  /** Index of the first filename parameter, if any. */
  function FindFilename(params: seq<DispositionParam>): (r: Option<nat>)
    ensures r.Some? ==> r.value < |params| && params[r.value].Filename? &&
                        forall j :: 0 <= j < r.value ==> !params[j].Filename?
    ensures r.None? ==> forall j :: 0 <= j < |params| ==> !params[j].Filename?
  {
    if |params| == 0 then None
    else if params[0].Filename? then Some(0)
    else match FindFilename(params[1..])
      case None => None
      case Some(i) => Some(i + 1)
  }

  /** A filename parameter decoded in its declared charset; a decoding failure becomes `Decoding`. */
  function DecodedFilename(param: DispositionParam, decode: Decoder): (r: Result<Option<string>, Error>)
    requires param.Filename?
    ensures r.Success? <==> CharsetDecode(param.charset, param.bytes, decode).Success?
    ensures r.Success? ==> r.value == Some(CharsetDecode(param.charset, param.bytes, decode).value)
    ensures r.Failure? ==> r.error == Decoding(CharsetDecode(param.charset, param.bytes, decode).error)
  {
    match CharsetDecode(param.charset, param.bytes, decode)
    case Success(name) => Success(Some(name))
    case Failure(message) => Failure(Decoding(message))
  }

  /** `i` is the first filename parameter. */
  predicate FirstFilenameAt(params: seq<DispositionParam>, i: nat)
  {
    i < |params| && params[i].Filename? && forall j :: 0 <= j < i ==> !params[j].Filename?
  }

  /**
   * The filename of a Content-Disposition: the first filename parameter,
   * decoded in its declared charset; none when there is no such parameter.
   */
  function GetContentDispositionFilename(cd: ContentDisposition, decode: Decoder): (r: Result<Option<string>, Error>)
    ensures (forall j :: 0 <= j < |cd.parameters| ==> !cd.parameters[j].Filename?) ==> r == Success(None)
    ensures forall i: nat | FirstFilenameAt(cd.parameters, i) :: r == DecodedFilename(cd.parameters[i], decode)
  {
    match FindFilename(cd.parameters)
    case None => Success(None)
    case Some(i) =>
      assert FirstFilenameAt(cd.parameters, i);
      assert forall k: nat | FirstFilenameAt(cd.parameters, k) :: k == i;
      DecodedFilename(cd.parameters[i], decode)
  }
}

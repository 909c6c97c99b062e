/**
 The per-upload converter (`convert_image`). The imaging library is not part
 of the model: its decoder and encoder are passed in as functions, and the
 pixel representation is the type parameter `Img`. A decoder or encoder that
 raises is a function returning `None`.
 */
module Converter {

  import opened Optional
  import opened Text
  import opened Formats

  type Byte = bv8
  type Bytes = seq<Byte>

  /** What the decoder yields: the pixels and the format it recognised. */
  datatype Decoded<Img> = Decoded(image: Img, format: string)

  /** Why an upload produced no output. */
  datatype FailReason =
    | DecodeFailed                        // the decoder raised
    | UnsupportedFormat(reported: string) // decoded, but not on the allow-list
    | EncodeFailed                        // the encoder raised

  /** Exactly one of the two holds for every upload. */
  datatype ConversionResult = Converted(data: Bytes) | Failed(reason: FailReason)

  /** `convert_image(upload, outputFormat)`. It has no precondition: every
      outcome of the decoder and the encoder is turned into a result value. */
  function Convert<Img>(
    upload: Bytes,
    outputFormat: string,
    decode: Bytes -> Option<Decoded<Img>>,
    encode: (Img, string) -> Option<Bytes>
  ): (r: ConversionResult)
    ensures r.Converted? <==>
      && decode(upload).Some?
      && IsSupportedInput(decode(upload).value.format)
      && encode(decode(upload).value.image, Upper(outputFormat)).Some?
    ensures r.Converted? ==>
      Some(r.data) == encode(decode(upload).value.image, Upper(outputFormat))
    ensures r == Failed(DecodeFailed) <==> decode(upload).None?
    ensures r.Failed? && r.reason.UnsupportedFormat? <==>
      decode(upload).Some? && !IsSupportedInput(decode(upload).value.format)
    ensures r.Failed? && r.reason.UnsupportedFormat? ==>
      r.reason.reported == decode(upload).value.format
  {
    match decode(upload)
    case None => Failed(DecodeFailed)
    case Some(d) =>
      if !IsSupportedInput(d.format) then
        Failed(UnsupportedFormat(d.format))
      else
        match encode(d.image, Upper(outputFormat))
        case None => Failed(EncodeFailed)
        case Some(out) => Converted(out)
  }

  /** A successful conversion always started from one of the five allowed
      format names, whatever else the decoder can open. */
  lemma ConvertedOnlyFromAllowed<Img>(
    upload: Bytes,
    outputFormat: string,
    decode: Bytes -> Option<Decoded<Img>>,
    encode: (Img, string) -> Option<Bytes>
  )
    requires Convert(upload, outputFormat, decode, encode).Converted?
    ensures decode(upload).Some?
    ensures Lower(decode(upload).value.format) in {"jpeg", "jpg", "png", "gif", "webp"}
  {
    SupportedInputNames(decode(upload).value.format);
  }

  /** For a format picked from the offered list the encoder is asked for
      exactly that format, and its bytes are the result, untouched. */
  lemma ConvertToOfferedFormat<Img>(
    upload: Bytes,
    outputFormat: string,
    decode: Bytes -> Option<Decoded<Img>>,
    encode: (Img, string) -> Option<Bytes>
  )
    requires outputFormat in OutputFormats
    requires decode(upload).Some? && IsSupportedInput(decode(upload).value.format)
    ensures Convert(upload, outputFormat, decode, encode) ==
      match encode(decode(upload).value.image, outputFormat)
      case Some(out) => Converted(out)
      case None => Failed(EncodeFailed)
  {
    OutputFormatsAreUpperCase(outputFormat);
  }

  /** The target format is case-insensitive: "png" and "PNG" convert alike. */
  lemma ConvertIgnoresOutputCase<Img>(
    upload: Bytes,
    f: string,
    g: string,
    decode: Bytes -> Option<Decoded<Img>>,
    encode: (Img, string) -> Option<Bytes>
  )
    requires Lower(f) == Lower(g)
    ensures Convert(upload, f, decode, encode) == Convert(upload, g, decode, encode)
  {
    UpperIgnoresCase(f, g);
  }

  /** A decoder that opens the upload as a BMP still yields a failure that
      names the format, even though the encoder would have succeeded. */
  lemma DecoderSuccessIsNotEnough(upload: Bytes)
    ensures Convert(upload, "PNG", (u: Bytes) => Some(Decoded(0, "BMP")), (i: int, f: string) => Some([1 as Byte]))
         == Failed(UnsupportedFormat("BMP"))
  {
    UnsupportedExamples();
  }
}

/** The two fixed format lists of the converter and the allow-list gate. */
module Formats {

  import opened Text

  /** The input formats the converter declares support for, in lower case. */
  const SupportedInputFormats: seq<string> := ["jpeg", "jpg", "png", "gif", "webp"]

  /** The target formats offered to the user, as the encoder names them. */
  const OutputFormats: seq<string> := ["PNG", "JPEG", "GIF", "WEBP"]

  /** The gate: the format the decoder reports, lower-cased, is on the allow-list.
      The decoder being able to open a file is not enough, and a reported name
      with anything but three or four letters never passes. */
  function IsSupportedInput(reported: string): (ok: bool)
    ensures ok ==> 3 <= |reported| <= 4
    ensures ok ==> forall i :: 0 <= i < |reported| ==> IsAsciiLetter(reported[i])
  {
    var f := Lower(reported);
    assert f in SupportedInputFormats ==> forall i :: 0 <= i < |f| ==> IsAsciiLower(f[i]);
    f in SupportedInputFormats
  }

  /** The gate spelled out: exactly five lower-case names pass it. */
  lemma SupportedInputNames(reported: string)
    ensures IsSupportedInput(reported) <==>
      var f := Lower(reported);
      f == "jpeg" || f == "jpg" || f == "png" || f == "gif" || f == "webp"
  {
  }

  /** The gate ignores the case in which the decoder reports the format. */
  lemma SupportedInputIgnoresCase(a: string, b: string)
    requires Lower(a) == Lower(b)
    ensures IsSupportedInput(a) <==> IsSupportedInput(b)
  {
  }

  /** Formats the decoder can open but the allow-list refuses. */
  lemma UnsupportedExamples()
    ensures !IsSupportedInput("BMP")
    ensures !IsSupportedInput("TIFF")
    ensures !IsSupportedInput("MPO")
    ensures IsSupportedInput("JPEG") && IsSupportedInput("WebP")
  {
    assert Lower("BMP") == "bmp";
    assert Lower("TIFF") == "tiff";
    assert Lower("MPO") == "mpo";
    assert Lower("JPEG") == "jpeg";
    assert Lower("WebP") == "webp";
  }

  /** Every offered output format is already upper case, so `upper()` leaves it alone. */
  lemma OutputFormatsAreUpperCase(f: string)
    requires f in OutputFormats
    ensures Upper(f) == f
  {
    UpperFixesCapitals(f);
  }

  /** The archive extension of each output format, `lower()` of its name. */
  lemma OutputExtensions()
    ensures Lower(OutputFormats[0]) == "png"
    ensures Lower(OutputFormats[1]) == "jpeg"
    ensures Lower(OutputFormats[2]) == "gif"
    ensures Lower(OutputFormats[3]) == "webp"
  {
    assert Lower("PNG") == "png";
    assert Lower("JPEG") == "jpeg";
    assert Lower("GIF") == "gif";
    assert Lower("WEBP") == "webp";
  }

  /** Every output format is also an accepted input format, so a converted
      file can be uploaded again. */
  lemma OutputFormatsAreSupportedInputs(f: string)
    requires f in OutputFormats
    ensures IsSupportedInput(f)
  {
    OutputExtensions();
  }
}

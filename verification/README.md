# Pics-Convert: the batch conversion pipeline in Dafny

Pics-Convert is a small Streamlit page. The user uploads images, picks a
target format and presses "convert". Each upload is decoded by the imaging
library. It is refused unless the decoder's format, lower-cased, is on a fixed
allow-list. Otherwise it is re-encoded into the target format. Failures are
reported one by one and dropped. The successes are packed, in upload order,
into one ZIP archive with entries `converted_1.<ext>`, `converted_2.<ext>`, …,
and a download is offered only when there is at least one success.

This project models that pipeline and proves its rules:

- `option.dfy` (`Optional`): the `Option` type used for a `None` return or a caught exception.
- `text.dfy` (`Text`): ASCII `lower()`/`upper()` and `str(n)` for naturals, with a decimal parser
  that inverts it in both directions.
- `formats.dfy` (`Formats`): the two format lists and the allow-list gate.
- `converter.dfy` (`Converter`): `convert_image` over an abstract decoder and encoder.
- `archiver.dfy` (`Archiver`): `create_zip_from_buffers` as a list of (name, bytes) entries, with
  entry-name parsing and lookup by name.
- `pipeline.dfy` (`Pipeline`): the conversion loop of `main` and the `if buffers:` download gate.

The imaging library's decoder and encoder are function parameters
`decode: Bytes -> Option<Decoded<Img>>` and `encode: (Img, string) -> Option<Bytes>`.
The pixel type is the type parameter `Img`. A call that raises is a call
that returns `None`. `Convert` has no precondition, so every decoder or
encoder outcome becomes a `ConversionResult` and nothing propagates.

A Python `BytesIO` is always truthy. So the `if output_buffer:` test in the
loop keeps every non-`None` result, an empty encoded buffer included. In the
model an upload is kept exactly when its result is `Converted`.

Numbering is dense over successes. Entry k (0-based) of the archive is the
k-th successful upload, whatever its position in the batch. `ArchiveEntryOrigin`
links entry k back to that position.

## Model

| member | source | states |
|---|---|---|
| Formats.IsSupportedInput | Pic-convert-1.0.py:6-14 | the gate of lines 13-14, lower-casing and then membership in the allow-list; its contract adds that a name that passes has three or four characters, all ASCII letters, so padded or non-letter names never pass |
| Formats.SupportedInputIgnoresCase | Pic-convert-1.0.py:13 | the gate gives the same answer for two reported names equal up to case |
| Formats.UnsupportedExamples | Pic-convert-1.0.py:13-16 | BMP, TIFF and MPO are refused although the decoder opens them; JPEG and WebP pass whatever their case |
| Formats.OutputFormatsAreUpperCase | Pic-convert-1.0.py:7 | `upper()` leaves every offered output format unchanged |
| Formats.OutputExtensions | Pic-convert-1.0.py:7 | the entry extensions of the four output formats are png, jpeg, gif, webp |
| Formats.OutputFormatsAreSupportedInputs | Pic-convert-1.0.py:6-7 | every output format passes the input gate, so converted files can be uploaded again |
| Text.Lower | Pic-convert-1.0.py:13 | `lower()` keeps the length, leaves no ASCII capital, changes only capitals, and keeps each character's upper-case form, so every capital becomes its own small letter |
| Text.Upper | Pic-convert-1.0.py:19 | `upper()` keeps the length, leaves no ASCII small letter, changes only small letters, and keeps each character's lower-case form, so every small letter becomes its own capital |
| Text.UpperIgnoresCase | Pic-convert-1.0.py:19 | two strings equal up to case have the same upper-case form |
| Text.NatToString | Pic-convert-1.0.py:30 | `str(n)` is a non-empty string of digits with no leading zero, one digit exactly when n < 10 |
| Text.DecimalRoundTrip | Pic-convert-1.0.py:30 | parsing `str(n)` gives back n |
| Text.DecimalRoundTripBack | Pic-convert-1.0.py:30 | a numeral that parses to n is `str(n)` itself |
| Text.NatToStringInjective | Pic-convert-1.0.py:30 | distinct numbers print as distinct numerals |
| Converter.Convert | Pic-convert-1.0.py:9-23 | success exactly when decoding succeeds, the format passes the gate and encoding into the upper-cased format succeeds, and then the result is the encoder's bytes; a failed decode, a refused format (with the reported name) and a failed encode each give their own failure |
| Converter.ConvertedOnlyFromAllowed | Pic-convert-1.0.py:13-16 | a successful conversion always came from a decoded upload whose lower-cased format is one of the five allowed names |
| Converter.ConvertToOfferedFormat | Pic-convert-1.0.py:18-20 | for an offered output format the encoder is asked for exactly that format and its output, or its failure, is the result |
| Converter.ConvertIgnoresOutputCase | Pic-convert-1.0.py:19 | output formats equal up to case convert identically |
| Converter.DecoderSuccessIsNotEnough | Pic-convert-1.0.py:12-16 | a decoder that opens an upload as BMP still gives the unsupported-format failure, even with a working encoder |
| Archiver.EntryName | Pic-convert-1.0.py:30 | the name `converted_{k+1}.{lower(format)}` of entry k parses back to k |
| Archiver.EntryNameRoundTripBack | Pic-convert-1.0.py:30 | a name that parses to k is the name of entry k |
| Archiver.EntryNamesDistinct | Pic-convert-1.0.py:29-30 | two different positions never get the same entry name |
| Archiver.CreateZip | Pic-convert-1.0.py:25-33 | one entry per buffer, in order, entry k named `converted_{k+1}.{lower(format)}` holding exactly buffer k's bytes; names pairwise distinct; no buffers give no entries |
| Archiver.ArchiveNamesDistinct | Pic-convert-1.0.py:29-31 | any archive of the buffers has pairwise distinct entry names |
| Archiver.ArchiveContents | Pic-convert-1.0.py:29-31 | reading the archive by name gives buffer k for the name of entry k and nothing for every other name |
| Archiver.ArchiveReadBack | Pic-convert-1.0.py:31 | reading entry k's name gives back buffer k unchanged |
| Pipeline.Successes | Pic-convert-1.0.py:102-106 | the kept buffers are never more than the uploads |
| Pipeline.Failures | Pic-convert-1.0.py:14-23 | the reported failures are never more than the uploads |
| Pipeline.ConversionsIndependent | Pic-convert-1.0.py:103-104 | an upload's result depends on its own bytes only, not on the rest of the batch |
| Pipeline.SuccessIndicesPick | Pic-convert-1.0.py:103-106 | the k-th kept buffer is the output of the upload at the k-th success position |
| Pipeline.FailureIndicesPick | Pic-convert-1.0.py:103-105 | the k-th reported failure is the reason of the upload at the k-th failure position |
| Pipeline.PositionsIncreasing | Pic-convert-1.0.py:103-106 | the success (or failure) positions lie in the batch, are of that kind, and strictly increase, so upload order is kept |
| Pipeline.PositionsCover | Pic-convert-1.0.py:105-106 | every successful (or failed) upload is among the listed positions |
| Pipeline.SuccessesAreOrderedSubsequence | Pic-convert-1.0.py:102-106 | the kept buffers are exactly the successes, as an order-preserving subsequence of the results |
| Pipeline.FailuresAreOrderedSubsequence | Pic-convert-1.0.py:103-105 | the reported failures are exactly the failed uploads' reasons, as an order-preserving subsequence of the results |
| Pipeline.SuccessesAppend | Pic-convert-1.0.py:103-106 | the buffers kept from a split batch are those of the first part followed by those of the second |
| Pipeline.SplitBatchKeepsOrder | Pic-convert-1.0.py:103-106 | uploads converted in two parts keep the same buffers, in the same order, as the whole batch converted at once |
| Pipeline.EveryResultAccounted | Pic-convert-1.0.py:104-106 | kept buffers plus reported failures are exactly as many as the uploads |
| Pipeline.NothingKeptIffAllFailed | Pic-convert-1.0.py:105-108 | nothing is kept exactly when every upload failed |
| Pipeline.RunBatch | Pic-convert-1.0.py:101-109 | the loop keeps exactly the successes and reports exactly the failures, in upload order; an archive of the kept buffers with distinct names is offered exactly when one conversion succeeded |
| Pipeline.ArchiveEntryOrigin | Pic-convert-1.0.py:102-106 | entry k of the offered archive holds the output of the k-th successful upload and is named after k, not after its batch position |
| Pipeline.MixedBatchNumbering | Pic-convert-1.0.py:29-30 | with three uploads of which the second fails, the archive is exactly `converted_1.jpeg` and `converted_2.jpeg` holding the first and third outputs |

## Left out

- The Streamlit page (page config, styling, uploader, previews, format selector, button,
  download widget, lines 35-99 and 110-116): presentation only. `RunBatch` returns the archive
  that the download button would offer.
- The uploader's file-extension filter (`type=SUPPORTED_INPUT_FORMATS`, line 89): a UI filter on
  names; the model keeps the content-based gate that the converter applies itself.
- Decoding and encoding pixels, colour modes and the imaging library's format detection
  (lines 12 and 19): foreign code, modelled as the `decode` and `encode` parameters. A decoder
  that reports no format at all (which makes `img.format.lower()` raise) is not modelled; the
  decoder always reports a name.
- The ZIP container, deflate compression and `zipfile` (line 28): foreign code; an archive is
  the ordered list of entries written into it.
- `BytesIO` buffers and `seek(0)` (lines 18, 27, 32): stream mechanics with no logical content;
  bytes are `seq<bv8>`.
- The text of the error messages (lines 15 and 22): only an abstract reason is kept. The
  source catches decode and encode faults in one handler; the model tells them apart.
- Text.Lower: models ASCII case mapping only, not Python's full Unicode `lower()`; every format
  name in play is ASCII.
- Text.Upper: models ASCII case mapping only, not Python's full Unicode `upper()`.
- A fault while writing the archive itself: the source does not catch one, so it would end the
  run; `CreateZip` is total and never fails.

# Gamma-Camera-Uniformity, modelled in Dafny

Gamma-Camera-Uniformity reads DICOM files of SPECT gamma-camera
acquisitions and measures how uniform the camera's response is. This project
models its core and proves properties about that model:

- **Value decoding.** `decode_value` turns the raw bytes of one element into
  a value according to its value representation (VR). When a decode fails, it
  retries with the last two bytes dropped.
- **Parsing the element stream.** `parse_binary` skips the 128-byte preamble
  and the `DICM` prefix. It then walks the explicit-VR little-endian
  elements, reordering each tag, until the pixel-data element `7fe00010`.
  Every other element goes into a dictionary keyed by tag, and each entry is
  finally annotated with a name from a tag dictionary.
- **Building the volume.** `decode_image_data` cuts the pixel bytes into
  little-endian samples and reshapes them into frames × rows × columns.
- **Volume operations.** Central cubic `crop`, per-slice smoothing,
  `remove_image_edges` (which marks pixels outside the disc with the
  sentinel 10000), and the `max_pixel`/`min_pixel` reducers that skip that
  sentinel.
- **Uniformity metrics.** A `UniformityLayer` holds one grayscale slice and
  the alpha channel of its field-of-view disc:
  - **integral** is the extrema ratio `|max - min| / ((max + min) / 2) * 100`
    over every pixel inside the disc;
  - **differential** is the largest such ratio over every horizontal and
    vertical run of five pixels that has at least two pixels inside the disc.
- **GUI logic.** The directory label is always 30 characters wide. Three
  text boxes accept a setting only when it is an in-range digit string. The
  image buttons (open, smooth, reduce, revert, close) follow a protocol, and
  the model proves it keeps the buttons consistent with the images held.

The modules, leaf first:

- `Wrappers`: `Option` and `Result`.
- `PyStr`: Python string semantics used by the core, namely slicing,
  substring tests on blank-separated code lists, `isdigit`, `int` and `str`.
- `ByteCodec`: `int.from_bytes`, `struct.unpack` of big-endian signed
  integers, and `bytes.hex`.
- `DicomValue`: `decode_value`.
- `DicomParse`: `rearrange_tag` and `parse_binary`.
- `DicomVolume`: `decode_image_data`, `crop`, `apply_convolution`,
  `remove_image_edges`, `max_pixel` and `min_pixel`.
- `Uniformity`: `uniformity_functions.py`.
- `Gui`: the parts of `gui.py` listed above. The window is modelled twice:
  - `Next` is a pure transition function over a `Screen` value, and the
    protocol lemmas are stated about it;
  - the `MainWindow` class has a method per button callback, and each method
    is proved to perform exactly one `Next` step.

Python exceptions become `Err`/`None` results. Examples are the
`RecursionError` of a retry that runs out of bytes, and the `KeyError` of
missing metadata. Where `gui.py` raises, its model says which error.

Where a reader might expect stricter behaviour, the model follows the code:

- Lengths are not checked. Out-of-range crops are clamped like Python slices
  rather than rejected.
- A pixel count that does not match the dimensions is numpy's reshape
  `ValueError`.
- The bits-allocated value is floor-divided by 8 and never rejected.
- Unknown tags are labelled `UNKOWN`, spelled as in the code.
- A failing decode retry ends in unbounded recursion.
- UL and US decode any number of bytes as little-endian.
- The metrics divide by zero as numpy does: 0/0 is NaN and x/0 is infinity.
  Only the window scan of differential skips a zero sum.

## Model

| member | source | states |
|---|---|---|
| ByteCodec.LittleEndianBound | dicom_functions.py:38-39 | `int.from_bytes(..., "little")` of n bytes is below 256^n |
| ByteCodec.LittleEndianRoundTrip | dicom_functions.py:38-39 | re-encoding a little-endian value to its width gives back the original bytes |
| ByteCodec.EncodeLittleEndianRoundTrip | dicom_functions.py:67-71 | a number below 256^k encoded in k little-endian bytes, such as a length field, reads back as itself |
| ByteCodec.BigEndianRoundTrip | dicom_functions.py:35-37 | unsigned big-endian decoding is invertible at its width |
| ByteCodec.EncodeBigEndianRoundTrip | dicom_functions.py:35-37 | a number below 256^k survives a k-byte big-endian encoding |
| ByteCodec.SignBit | dicom_functions.py:35-37 | the top bit of the first byte decides the sign of the two's-complement value |
| ByteCodec.SignedBigEndianRange | dicom_functions.py:35-37 | `struct.unpack(">i"/">h"/">q")` yields a value in [-2^(8k-1), 2^(8k-1)) |
| ByteCodec.SignedRoundTrip | dicom_functions.py:35-37 | every value in that range encodes to k bytes that decode back to it |
| ByteCodec.SignedBytesRoundTrip | dicom_functions.py:35-37 | decoding then re-encoding signed big-endian bytes gives back the bytes |
| ByteCodec.HexRoundTrip | dicom_functions.py:31 | `bytes.hex()` yields only lower-case hex digits, two per byte, from which the bytes are recovered |
| ByteCodec.HexConcat | dicom_functions.py:62 | the hex text of concatenated bytes is the concatenation of their hex texts |
| PyStr.Take | dicom_functions.py:62-74 | `data[:n]` has length min(n, len) and is a prefix of the data |
| PyStr.Drop | dicom_functions.py:62-74 | `data[n:]` is the suffix left after `data[:n]`, of length max(len - n, 0) |
| PyStr.Slice | gui.py:336 | Python slicing with negative or out-of-range bounds; within bounds it is the ordinary subsequence |
| PyStr.JoinContainsCode | dicom_functions.py:28 | for a two-letter code, the substring test on a blank-separated list of codes is exactly list membership |
| PyStr.NatStrRoundTrip | gui.py:298 | `str(n)` of a natural number is a digit string whose decimal value is n |
| PyStr.PyIntOfDigits | gui.py:294 | `int()` of an `isdigit()` string succeeds with its decimal value |
| PyStr.PyIntOfStr | dicom_functions.py:34 | `int()` reads back `str(n)` even with trailing blanks |
| DicomValue.TextVRCode | dicom_functions.py:28 | a two-letter VR passes the text test iff it is one of the 17 listed text VRs |
| DicomValue.AsciiDecode | dicom_functions.py:29 | ASCII decoding fails iff some byte is 128 or above; otherwise character i is byte i |
| DicomValue.AsciiRoundTrip | dicom_functions.py:29 | decoding the ASCII encoding of an ASCII string gives back the string |
| DicomValue.StripLastTwo | dicom_functions.py:43 | the retry input is `value[:-2]`: two bytes shorter, or empty |
| DicomValue.DecodeValue | dicom_functions.py:24-43 | the only error that escapes is RecursionError; a VR in neither list returns the bytes unchanged |
| DicomValue.DecodeOther | dicom_functions.py:40 | OB, OW and every other VR outside both lists decode to the raw bytes |
| DicomValue.DecodeValueRetry | dicom_functions.py:24-43 | the recursive retry always re-enters the same branch, the one the VR selects |
| DicomValue.DecodeFirstAttempt | dicom_functions.py:27-40 | when the first attempt succeeds, its result is the answer |
| DicomValue.DecodeIsFirstSuccess | dicom_functions.py:24-43 | a successful decode is the first success among value, value[:-2], value[:-4], ... |
| DicomValue.DecodeFailsOnlyIfAllFail | dicom_functions.py:24-43 | a failed decode means every shortened candidate fails to decode |
| DicomValue.KindOfCode | dicom_functions.py:30-39 | each of the nine non-text codes reaches its own `match` case, not the text branch |
| DicomValue.DecodeTotal | dicom_functions.py:28-43 | every VR other than FL, FD, IS, SL, SS and SV decodes whatever the bytes (a text VR at worst by shortening to ASCII) |
| DicomValue.DecodeEmptyFails | dicom_functions.py:32-43 | FL, FD, IS, SL, SS and SV fail on empty bytes, the unbounded recursion's RecursionError |
| DicomValue.DecodeText | dicom_functions.py:28-29 | a text VR on ASCII bytes decodes to that text without retrying |
| DicomValue.DecodeAT | dicom_functions.py:31 | AT decodes to the lower-case hex of the bytes |
| DicomValue.DecodeUnsigned | dicom_functions.py:38-39 | UL and US decode any bytes to their little-endian value |
| DicomValue.RetryFixedWidth | dicom_functions.py:32-43 | a fixed-width VR's retry loop succeeds iff the length is even and at least the width, decoding the first width bytes |
| DicomValue.DecodeFixedWidth | dicom_functions.py:32-43 | the same at the decode_value level |
| DicomValue.DecodeSignedRoundTrip | dicom_functions.py:35-37 | SL, SS and SV decode the big-endian encoding of any in-range integer back to it |
| DicomValue.IntText | dicom_functions.py:34 | the ASCII bytes of `str(n)` decode as text to `str(n)` |
| DicomValue.DecodeIS | dicom_functions.py:34 | IS of `str(n)` padded with a trailing blank decodes to n |
| DicomParse.RearrangeTag | dicom_functions.py:46-50 | the reordered tag has the same length |
| DicomParse.RearrangeEight | dicom_functions.py:49 | on eight characters, the two byte pairs of each half are swapped |
| DicomParse.RearrangeTagInvolution | dicom_functions.py:46-50 | reordering twice gives back every tag text of up to 8 hex digits, the only ones `data[:4].hex()` yields |
| DicomParse.TagOfBytes | dicom_functions.py:62 | the tag text of four stream bytes is the group then the element, each high byte first |
| DicomParse.PixelTagBytes | dicom_functions.py:76 | the stream bytes E0 7F 10 00 give the pixel-data tag `7fe00010` |
| DicomParse.ShortVRCode | dicom_functions.py:66 | a two-letter VR takes the 2-byte length form iff it is one of the 21 listed short VRs |
| DicomParse.ReadElement | dicom_functions.py:61-74 | reading one element leaves a strict suffix of the data (the loop makes progress) |
| DicomParse.ReadElementShrinks | dicom_functions.py:61-74 | the remaining data is strictly shorter after every element |
| DicomParse.ReadNext | dicom_functions.py:62-74 | the imperative step that consumes tag, VR, length and value computes ReadElement |
| DicomParse.ReadElements | dicom_functions.py:58-81 | the element loop stores exactly the specification's collection of elements |
| DicomParse.NameElements | dicom_functions.py:83-89 | every stored element gets its dictionary name, or `UNKOWN` |
| DicomParse.ParseBinary | dicom_functions.py:53-91 | the whole method returns the functional Parse of the file |
| DicomParse.CollectKeys | dicom_functions.py:81 | a tag is a key of the result iff some element read before the pixel data had it |
| DicomParse.CollectLast | dicom_functions.py:81 | for a repeated tag, the last occurrence wins |
| DicomParse.StreamNoPixel | dicom_functions.py:76-79 | no element before the pixel data has the pixel tag |
| DicomParse.NoPixelStored | dicom_functions.py:76-81 | `7fe00010` is never a key of the metadata |
| DicomParse.WalkMetadata | dicom_functions.py:61-81 | the metadata is collected only from elements before the pixel data |
| DicomParse.Parse | dicom_functions.py:53-91 | a parsed file's metadata never has the pixel tag, and each entry carries its dictionary name or `UNKOWN` |
| DicomParse.ParseMetadata | dicom_functions.py:53-91 | the parse returns the walk's pixel data; its metadata never has the pixel tag, has a tag iff some element had it, and holds the last such element |
| DicomParse.ParseHeaderOnly | dicom_functions.py:58-61 | a file of at most 132 bytes gives no elements and no pixel data |
| DicomParse.LengthBytes | dicom_functions.py:66-72 | the length field is 2 bytes for short VRs and 2 reserved bytes plus 4 otherwise |
| DicomParse.LengthFieldRoundTrip | dicom_functions.py:66-72 | a length written in that form reads back, consuming exactly the field |
| DicomParse.ReadFramed | dicom_functions.py:62-74 | an element framed by tag, VR and length reads back with its raw value and what follows |
| DicomParse.ReadEncoded | dicom_functions.py:61-74 | encoding a well-formed element and reading it gives back tag, VR, length and decoded value |
| DicomParse.ReadTruncated | dicom_functions.py:73-74 | a declared length beyond the data takes what is left, with no error |
| DicomParse.ElementsOfEncoded | dicom_functions.py:61-81 | reading a stream of encoded elements gives back each element in order |
| DicomParse.EncodedPixel | dicom_functions.py:76-79 | the pixel element's value is decoded under its VR (OB and OW come back as the raw bytes, see DicomValue.DecodeOther), and nothing after it is read |
| DicomParse.ElementsUpToPixel | dicom_functions.py:61-81 | elements followed by a pixel element read back, then the pixel bytes |
| DicomParse.ParseEncoded | dicom_functions.py:53-91 | a file written from elements parses to the metadata collected from them, with the pixel bytes |
| DicomParse.ParseEncodedNoPixel | dicom_functions.py:53-91 | without a pixel element, the pixel data is the empty default |
| DicomVolume.SamplesLength | dicom_functions.py:99 | the sample list has ceil(len / b) entries |
| DicomVolume.SamplesCount | dicom_functions.py:99 | a whole number of samples of b bytes gives exactly len / b samples |
| DicomVolume.SampleAt | dicom_functions.py:99 | sample i is the little-endian value of bytes [i*b, i*b + b), clipped at the end |
| DicomVolume.SamplesRoundTrip | dicom_functions.py:99 | samples encoded at width b decode back to themselves |
| DicomVolume.Reshape | dicom_functions.py:103 | reshaping gives a frames × rows × columns box |
| DicomVolume.ReshapeAt | dicom_functions.py:103 | voxel (f, r, c) is flat sample (f*rows + r)*columns + c |
| DicomVolume.ReshapeCovers | dicom_functions.py:103 | every flat sample lands in exactly one voxel |
| DicomVolume.DecodeSamples | dicom_functions.py:97-99 | a stride of 0 bytes is range()'s ValueError; a negative stride gives no samples |
| DicomVolume.Lookup | dicom_functions.py:100-102 | `parsed_data[tag][2]` is the stored value when the tag is a key, and otherwise KeyError for that tag |
| DicomVolume.DecodeImageData | dicom_functions.py:94-105 | a missing bit depth, or, once the samples are read, a missing rows, columns or frames element is a KeyError for the first missing tag in that order, whatever the types of the others; with all three present, a non-integer among them is reshape's TypeError; a success is a box of frames x rows x columns |
| DicomVolume.DecodeImageOk | dicom_functions.py:94-105 | when the sample count equals frames × rows × columns, decoding gives the reshaped samples |
| DicomVolume.DecodeImageAt | dicom_functions.py:94-105 | each voxel of a decoded image is the little-endian value of its bytes in row-major order |
| DicomVolume.DecodeImageCountMismatch | dicom_functions.py:103 | a pixel blob of the wrong size is numpy's reshape ValueError |
| DicomVolume.DecodeImageNoPixel | dicom_functions.py:94-105 | a file without pixel data decodes only when a dimension is 0 |
| DicomVolume.DecodeImageNarrowBits | dicom_functions.py:97-99 | bits allocated from 0 to 7 give a byte count of 0, so range() raises ValueError |
| DicomVolume.Slice3InBounds | dicom_functions.py:159 | the three-axis slice of an in-bounds box is the box of that size |
| DicomVolume.Crop | dicom_functions.py:150-159 | the crop is never longer than the volume or than k, and has exactly k slices when the start and the k slices after it fit |
| DicomVolume.CropInBounds | dicom_functions.py:150-159 | a crop that fits yields a k × k × k cube |
| DicomVolume.CropCentred | dicom_functions.py:156-158 | the crop starts at len/2 - k/2 along every axis, so it is centred |
| DicomVolume.ApplyConvolution | dicom_functions.py:162-170 | every slice is replaced by its smoothed version, and the volume keeps its slice count |
| DicomVolume.SmoothKeepsShape | dicom_functions.py:169 | with a same-size kernel (mode 'same'), the smoothed volume has the original's shape |
| DicomVolume.RemoveEdges | dicom_functions.py:173-186 | masking keeps the shape |
| DicomVolume.RemoveEdgesCells | dicom_functions.py:179-184 | a voxel outside the disc of radius frames/2 is 10000, every other voxel is unchanged |
| DicomVolume.RemoveEdgesIdempotent | dicom_functions.py:173-186 | removing edges twice is removing them once |
| DicomVolume.RemoveImageEdges | dicom_functions.py:173-186 | the in-place loop over the array leaves exactly the masked contents |
| DicomVolume.Unmasked | dicom_functions.py:192 | the filtered list holds exactly the values other than 10000 |
| DicomVolume.MaxPixel | dicom_functions.py:189-192 | the result is an unmasked value at least every unmasked value; without one, ValueError |
| DicomVolume.MinPixel | dicom_functions.py:195-198 | the result is an unmasked value at most every unmasked value; without one, ValueError |
| DicomVolume.MinBelowMax | dicom_functions.py:189-198 | whenever both succeed, min_pixel is at most max_pixel |
| Uniformity.ValidSlice | uniformity_functions.py:31 | the kept values are exactly the non-NaN pixels of the window |
| Uniformity.NanMax | uniformity_functions.py:33 | the largest valid pixel: attained and at least all others |
| Uniformity.NanMin | uniformity_functions.py:34 | the smallest valid pixel: attained and at most all others |
| Uniformity.Ratio | uniformity_functions.py:36 | the extrema ratio is non-negative, and 0 when the extrema are equal |
| Uniformity.WindowRatio | uniformity_functions.py:31-36 | the ratio of a window that counts is non-negative |
| Uniformity.CalculateUniformity | uniformity_functions.py:26-38 | the loop's result is the maximum of 0 and the ratios of the qualifying windows |
| Uniformity.BestNonNegative | uniformity_functions.py:27 | the result is never below 0 |
| Uniformity.BestBounds | uniformity_functions.py:35-37 | the result bounds the ratio of every qualifying window |
| Uniformity.BestAttained | uniformity_functions.py:35-37 | a positive result is the ratio of some qualifying window |
| Uniformity.BestNoneQualify | uniformity_functions.py:26-38 | the result is 0 when no window qualifies |
| Uniformity.RowRuns | uniformity_functions.py:51 | a row of width W has max(W - 4, 0) runs of five |
| Uniformity.ColumnRuns | uniformity_functions.py:52 | a column of height H has max(H - 4, 0) runs of five |
| Uniformity.HorizontalHas | uniformity_functions.py:51 | every run of five pixels in a row is scanned |
| Uniformity.HorizontalOnly | uniformity_functions.py:51 | every scanned horizontal window is such a run |
| Uniformity.VerticalHas | uniformity_functions.py:52 | every run of five pixels in a column is scanned |
| Uniformity.VerticalOnly | uniformity_functions.py:52 | every scanned vertical window is such a run |
| Uniformity.HorizontalCount | uniformity_functions.py:51 | there are H × (W - 4) horizontal windows |
| Uniformity.VerticalCount | uniformity_functions.py:52 | there are W × (H - 4) vertical windows |
| Uniformity.IntegralOf | uniformity_functions.py:75-76 | with no valid pixel the integral is 0 |
| Uniformity.DifferentialOf | uniformity_functions.py:51-61 | the differential is non-negative and is the larger of the best horizontal and the best vertical result |
| Uniformity.DifferentialBounds | uniformity_functions.py:51-61 | the differential bounds the ratio of every counting run, horizontal or vertical |
| Uniformity.DifferentialZero | uniformity_functions.py:51-61 | the differential is never negative, and is 0 when no run counts |
| Uniformity.RunValuesInLayer | uniformity_functions.py:51-52 | the valid pixels of a run are valid pixels of the layer |
| Uniformity.RatioMonotone | uniformity_functions.py:36 | a wider spread of extrema gives a larger ratio (when the sum is positive) |
| Uniformity.DifferentialBelowIntegral | uniformity_functions.py:36-81 | for non-negative brightness the integral is never infinite, differential never exceeds a finite integral, and is 0 when the integral is NaN |
| Uniformity.RunAttaining | uniformity_functions.py:51-61 | a positive differential is attained by some counting run |
| Uniformity.UniformLayer | uniformity_functions.py:75-82 | a layer whose valid pixels all share one value has integral 0 and differential 0 |
| Uniformity.Masked | uniformity_functions.py:45-49 | masking keeps the grid's shape |
| Uniformity.MaskedPixelsIgnored | uniformity_functions.py:68-73 | brightness outside the disc never changes either metric |
| Uniformity.UniformityLayer.constructor | uniformity_functions.py:7-10 | a new layer keeps its data and radius and has no cropped data yet |
| Uniformity.UniformityLayer.CropToCircle | uniformity_functions.py:12-24 | after crop_to_circle the disc's alpha channel is the layer's mask |
| Uniformity.UniformityLayer.Differential | uniformity_functions.py:40-61 | 0 before crop_to_circle, otherwise the larger of the two scans, never negative |
| Uniformity.UniformityLayer.Integral | uniformity_functions.py:63-82 | 0 before crop_to_circle, otherwise the integral of the masked layer |
| Gui.Spaces | gui.py:338 | `' ' * n` has n blanks, and none when n is not positive |
| Gui.NormalizeDirectory | gui.py:333-339 | the displayed directory is always 30 characters wide |
| Gui.NormalizeDirectoryShows | gui.py:335-338 | long names show `"...` and their last 25 characters; short ones show the quoted name padded with blanks |
| Gui.NormalizeDirectoryDistinguishes | gui.py:337-338 | two different short directories get different labels |
| Gui.NormalizeDirectoryKeepsEnd | gui.py:335-336 | long directories that end alike get the same label |
| Gui.AcceptedValue | gui.py:294 | accepted text parses with `int()` to its decimal value, which is in (0, limit) |
| Gui.AcceptsStr | gui.py:298 | the text of every in-range value is accepted and reads back as that value |
| Gui.ChangeCropSize | gui.py:290-298 | keeps the configuration's keys and every other value; accepted text stores its value, which lies strictly between 0 and 100; rejected text leaves the configuration alone; only a missing `crop_amount` key raises |
| Gui.ChangeFovRadius | gui.py:300-307 | the same for `fov_radius` |
| Gui.ChangeStepAsWritten | gui.py:210-216 | the text box keeps the typed text and the keys are unchanged; an accepted step with a `crop` key is written under `crop` and nowhere else; otherwise the configuration is unchanged; nothing is raised exactly when the text is accepted and a `crop` key exists |
| Gui.ChangeSettingStores | gui.py:290-307 | the crop-size and FoV callbacks store an accepted value under their own key and touch no other key; rejected text leaves the config alone; a missing key is a KeyError |
| Gui.ChangeSettingShowsStored | gui.py:293-298 | a value in range stays in range, and after a rejection the box shows the stored value |
| Gui.ChangeSettingIdempotent | gui.py:290-307 | pressing the button twice has the effect of pressing it once |
| Gui.ChangeStepAsWrittenIgnoresStep | gui.py:210-216 | change_step as written never changes the stored step |
| Gui.ChangeStepAsWrittenCounterexample | gui.py:212-216 | with step 2 and text "5" it raises KeyError for "crop"; with text "x" it raises AttributeError |
| Gui.ChangeStepStores | gui.py:210-216 | the corrected callback stores 5 as the step, and restores "2" after "x" |
| Gui.LayerNames | gui.py:473 | the layer choices are "1" to "n", one per layer: entry i is the decimal text of i + 1 |
| Gui.IdleConsistent | gui.py:424-448 | the screen after Close is consistent: only Open is enabled and nothing is loaded |
| Gui.Next | gui.py:349-377 | a disabled Smooth, Reduce or Revert does nothing; only Open and Close change the opened volume; opening a 3-D array shows it and keeps it as the original; Revert restores the original; Close returns to the idle screen |
| Gui.NextConsistent | gui.py:349-377 | every button press keeps the buttons consistent with the images held |
| Gui.RunConsistent | gui.py:349-377 | any sequence of button presses keeps that consistency |
| Gui.SmoothOnce | gui.py:361-368 | after smoothing, Smooth is disabled until Revert |
| Gui.ReduceLast | gui.py:349-359 | after reducing, Smooth and a second Reduce do nothing, Revert is enabled and layer 1 is selected |
| Gui.ReduceNeedsSmooth | gui.py:349-351 | on a freshly opened volume Reduce does nothing until Smooth has run |
| Gui.RevertRestores | gui.py:370-377 | Revert brings back the original image and re-enables Smooth only |
| Gui.SmoothReduceRevert | gui.py:349-377 | after open, smooth shows the smoothed volume, reduce its central cube, and revert the volume as opened |
| Gui.CloseForgets | gui.py:424-448 | Close drops both images and returns to the idle screen, with only Open enabled |
| Gui.MainWindow.constructor | gui.py:81-103 | a new window has no image, only Open enabled, and the layer list "1" to "39"; its state is consistent |
| Gui.MainWindow.FitDicomImage | gui.py:467-484 | loading performs the Open transition: a 3-D volume becomes current and original, other ranks are rejected |
| Gui.MainWindow.ApplyConvolution | gui.py:361-368 | performs the Smooth transition, and raises exactly when the button is enabled with no image held |
| Gui.MainWindow.ReduceImage | gui.py:349-359 | performs the Reduce transition with the configured crop, and raises exactly when the button is enabled with no image held |
| Gui.MainWindow.RevertChanges | gui.py:370-377 | performs the Revert transition |
| Gui.MainWindow.CloseButton | gui.py:424-448 | performs the Close transition |

## Left out

- File access: reading DICOM and configuration files is not modelled. This
  covers `get_dicom_data`, the extension and existence checks of
  `load_dicom_image`, and the `FileNotFoundError` of
  `read_config_file`/`edit_config_file`. The file's bytes and the
  configuration are parameters, the configuration as a map from key to
  integer.
- `dicom_elements.json`: the tag dictionary is a map parameter.
- FL and FD floats: decoding them to IEEE floats is not modelled. The model
  keeps their 4 or 8 bytes and captures only the length check that makes
  `struct.unpack` fail.
- DicomVolume.ApplyConvolution: `convolve2d` is the parameter `smooth`.
  Writing its float output into the integer array of `zeros_like`
  (truncation) is part of that parameter, so only the shape and per-slice
  contract is modelled.
- DicomVolume.DecodeImageData: a dimension of -1 (numpy's inferred size) is
  treated as a reshape error. A volume with a zero-size dimension loses its
  inner shape, because a volume is a nested sequence.
- DicomValue.DecodeValue: the retry depth is unbounded. Python's recursion
  limit (about 1000 nested calls, so a value needing more than about 1000
  two-byte strips raises RecursionError, for example a 4000-byte SS) and
  `int()`'s 4300-digit limit on IS are not modelled.
- DicomVolume.Crop, DicomVolume.ApplyConvolution, DicomVolume.RemoveImageEdges:
  a volume is three-dimensional by its type, so the `ValueError` these
  functions raise for an array of any other rank (dicom_functions.py:153-154,
  :165-166, :176-177) is not modelled. In `gui.py`, `crop` and
  `apply_convolution` only ever receive the window's current volume
  (gui.py:228-229, :352, :364), which is 3-D or None; the None case is the
  AttributeError of Gui.Raises. `remove_image_edges` has no caller in the
  modelled files.
- Pixel values are unbounded integers. numpy's int64 storage is not
  modelled.
- Uniformity.UniformityLayer.CropToCircle: the imaging library draws the
  ellipse and converts to RGBA. The alpha channel it produces is a parameter.
- Grayscale conversion: the 0.299/0.587/0.114 weights are not modelled. The
  layer takes the grayscale brightness as exact reals rather than float64.
- Uniformity.UniformityLayer.Differential: the thread pool is modelled as
  two sequential scans. The maximum of the two does not depend on the order
  in which they finish.
- `uniformity_callback`, `display_uniformity`, `display_image`, layer
  navigation (Left/Right/combobox), saving a PNG, theme and colour menus,
  directory pickers, drag-and-drop path handling: presentation code with no
  rule beyond the button flags modelled. `display_image` is assumed not to
  raise.
- Gui.Next: exceptions raised inside `load_dicom_image` while opening a file
  are not modelled. Opening takes the loaded pixel array as its event.
- `decode_image_data` always returns a 3-D array. The rank check of
  `fit_dicom_image` therefore fails only for arrays from other loaders,
  modelled as `OtherRank`.
- PyStr.IsDigits: `str.isdigit` also accepts non-ASCII digits. The model
  accepts ASCII digits only.
- Gui.ChangeSetting: configuration values other than integers (kernel
  lists, directory names) are not modelled.
- `__init__` of the window never sets `current_dicom_image`. The model
  starts with no image, which is how every callback first sees it.

## Findings

| source | as written | input that shows it | evidently intended | confidence | as-written member | corrected member |
|---|---|---|---|---|---|---|
| gui.py:213 | an accepted step is written to the configuration key `"crop"`, which does not exist, so `edit_config_file` raises KeyError and the step never changes | configuration {step: 2, crop_amount: 44}, step text "5" | store it under `"step"`, the key the text box is filled from | high (not executed) | Gui.ChangeStepAsWrittenCounterexample | Gui.ChangeStepStores |
| gui.py:215-216 | a rejected step refers to `self.step_size`, which the window never defines, so it raises AttributeError and leaves the bad text in the box | step text "x" | restore the stored step in `self.step_textbox` | high (not executed) | Gui.ChangeStepAsWrittenIgnoresStep | Gui.ChangeStepStores |

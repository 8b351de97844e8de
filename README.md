# PNG ⇄ DDS converter: codec and batch worker

This project models the core of a desktop tool that converts PNG images to
DDS textures and back, in `image_converter.py`:

- **`DDSConverter`**, the tool's own DDS codec:
  - `read_dds` checks the `"DDS "` magic and unpacks the little-endian DDS_HEADER and DDS_PIXELFORMAT fields.
  - It refuses FourCC (compressed) surfaces and surfaces without the RGB flag.
  - `_decode_uncompressed` decodes 24- and 32-bit surfaces. It zero-pads a short payload and cuts a long one to `width * height * bpp` bytes. It exchanges channels 0 and 2 when the masks say the bytes are stored B,G,R[,A].
  - `write_dds` converts the image to RGBA and fills a zeroed 128-byte header field by field. It then writes the pixels as B,G,R,A.
- **`ConversionWorker`**, the batch driver:
  - `__init__` picks the timestamped roots `<base>/DDS/<timestamp>` and `<base>/PNG/<timestamp>` and creates the ones the mode needs.
  - `_get_output_path` names each output after the input's stem and puts it under the root for its extension.
  - `_convert_png_to_dds` and `_convert_dds_to_png` try the available libraries in a fixed fallback order: Wand/ImageMagick, then PIL, then the codec.
  - `run` goes through the files in order. It dispatches on the mode and the lower-cased extension, counts successes, and collects `(path, message)` pairs for failures without stopping. At the end it reports the output directory.

Modules:

- `Results`: `Result` and `Outcome`, the stand-ins for a value or a raised exception.
- `Bytes`: `struct.pack('<I')` and `struct.unpack_from('<I')` on bytes.
- `Text`: ASCII `str.lower()`, `bytes.decode('ascii', errors='ignore')`, and the `{n}` and `{n:#x}` formats.
- `Paths`: POSIX `os.path.basename`, `splitext` and `join`.
- `DdsCodec`: the codec. The reader is a set of pure functions. The writer is a method that fills a 128-byte `array` with `pack_into` calls, proved equal to the pure `EncodeDDS`.
- `ConversionWorkerModel`: the worker as a class with fixed settings. Its conversions are methods with early returns, each proved equal to a fallback-chain function. `run` is a loop whose invariant is the tally of the files seen so far.

The libraries and the file system are black boxes. A `Backends` value says whether
Wand and PIL were importable and what each library call or file access returns
for given paths.

## Model

| member | source | states |
|---|---|---|
| Bytes.PackU32 | image_converter.py:513-532 | `pack('<I', v)` is four bytes whose little-endian weighted sum is `v` |
| Bytes.UnpackU32At | image_converter.py:454-463 | `unpack_from('<I', s, offset)`; partner `UnpackByteOrder`, `UnpackPack`, `PackUnpack` |
| Bytes.UnpackByteOrder | image_converter.py:454-463 | the byte at the offset is the word's low byte and the byte three further its high byte |
| Bytes.UnpackPack | image_converter.py:513-532 | a 32-bit field packed little-endian unpacks to the same value |
| Bytes.PackUnpack | image_converter.py:453-463 | four bytes unpacked as a field and packed again are the same four bytes |
| Bytes.UnpackPacked | image_converter.py:513-532 | a field packed at an offset is read back at that offset |
| Bytes.UnpackInSlice | image_converter.py:451-463 | a field read from the 124 bytes after the magic is the field 4 bytes further into the file |
| Text.Lower | image_converter.py:572 | `lower()` keeps the length and lower-cases exactly the ASCII capitals |
| Text.LowerMatchesCaseVariants | image_converter.py:572-588 | a string lower-cases to `.png` or `.dds` exactly when it equals it ignoring case |
| Text.AsciiIgnore | image_converter.py:468 | decoding with `errors='ignore'` keeps only the bytes below 0x80, and keeps all of them when all are ASCII; a single byte decodes to its character when ASCII and to nothing otherwise |
| Text.AsciiIgnoreConcat | image_converter.py:468 | decoding a concatenation is the concatenation of the decodings, so together with the singleton case each ASCII byte is kept in order and each other byte dropped |
| Text.Decimal | image_converter.py:501 | the decimal text of `n` is digits that read back as `n`, with no leading zero |
| Text.HexDigits | image_converter.py:477 | the lower-case hex digits of `n` read back as `n` in base 16, with no leading zero |
| Text.Hex | image_converter.py:477 | `{n:#x}` is `0x` followed by hex digits that read back as `n`, with no leading zero |
| Paths.RFind | image_converter.py:570 | the last index holding the character, or -1 when there is none |
| Paths.Basename | image_converter.py:570 | the base name is the suffix after the last separator and holds no separator |
| Paths.SplitExt | image_converter.py:572 | root plus extension is the path; the extension is empty or is one dot followed by neither dot nor separator (where it splits: `SplitExtAtLastDot`) |
| Paths.SplitExtAtLastDot | image_converter.py:572 | the extension is non-empty exactly when the last dot follows the last separator and some non-dot character of the base name precedes it; the root then ends just before that dot |
| Paths.SplitExtOfParts | image_converter.py:572 | a directory, a base name with some non-dot character and a one-dot extension split into directory plus name, and the extension |
| Paths.Ext | image_converter.py:572 | `splitext(p)[1]`; partner `ExtIsSuffix` |
| Paths.ExtIsSuffix | image_converter.py:572 | the extension is a suffix of the path, empty or one dot followed by neither dot nor separator |
| Paths.Stem | image_converter.py:601 | the stem of the base name holds no separator |
| Paths.Join | image_converter.py:555-556 | two-argument `os.path.join`; partner `JoinShape` |
| Paths.JoinShape | image_converter.py:604-608 | the joined path ends with the name; an absolute name replaces the directory; otherwise it is directory plus name when the directory is empty or ends in a separator, and directory, one separator, name when it does not |
| Paths.BasenameOfJoin | image_converter.py:604-608 | the base name of `join(dir, name)` is `name` when `name` holds no separator |
| Paths.JoinExtends | image_converter.py:555-556 | `join(dir, name)` starts with `dir` when `name` is not absolute |
| Paths.JoinInjective | image_converter.py:604-608 | in one directory, distinct names join to distinct paths |
| DdsCodec.HasFlag | image_converter.py:467-474 | `pf_flags & flag` is non-zero; partner `HasFlagBit` |
| DdsCodec.HasFlagBit | image_converter.py:467-474 | the flag is set exactly when the flag's bit is set in `flags` |
| DdsCodec.PixelToRGBA | image_converter.py:506-507 | one pixel converted to RGBA is four bytes; partner `PixelToRGBAChannels` |
| DdsCodec.PixelToRGBAChannels | image_converter.py:506-507 | grey is copied into R, G and B, colour is kept, alpha is kept from LA and RGBA and is 0xFF otherwise |
| DdsCodec.ToRGBAData | image_converter.py:506-507 | the converted data has four bytes per pixel, and RGBA data is unchanged |
| DdsCodec.ToRGBADataPixel | image_converter.py:506-507 | pixel `k` of the converted data is pixel `k` of the source converted by `PixelToRGBA` |
| DdsCodec.ToRGBA | image_converter.py:506-507 | the converted image is a valid RGBA image of the same size; an RGBA image is unchanged (pixel by pixel: `ToRGBADataPixel`) |
| DdsCodec.SwappedIndexInPixel | image_converter.py:492 | in whole pixels, the channel permutation stays in the same pixel, maps channel c to its source channel, and is its own inverse |
| DdsCodec.SwapRB | image_converter.py:492 | indexing each pixel by `[2, 1, 0(, 3)]` keeps the byte count |
| DdsCodec.SwapRBAt | image_converter.py:498 | byte `i` of the swapped buffer is the byte of the same pixel at the source channel |
| DdsCodec.SwapRBKeepsChannels | image_converter.py:535 | green and alpha bytes are not moved |
| DdsCodec.SwapRBInvolution | image_converter.py:535 | swapping twice gives back the buffer |
| DdsCodec.Message | image_converter.py:469 | a compressed surface is reported as `Compressed DDS format <fourcc> requires Wand/ImageMagick`, FourCC decoded ASCII-ignoring |
| DdsCodec.FirstShortField | image_converter.py:453-463 | a short header fails at the first field, in unpacking order, whose four bytes are not all there |
| DdsCodec.ParseHeader | image_converter.py:451-463 | unpacking fails exactly when fewer than 104 header bytes were read, naming the first short field; otherwise the FourCC has 4 bytes |
| DdsCodec.StoredBgr | image_converter.py:491 | the masks name blue in the low byte and red in the third byte; partner `WrittenFlagValues` shows the writer's masks meet it |
| DdsCodec.ExpectedSize | image_converter.py:482-483 | 4 bytes per pixel for a 32-bit surface, 3 for a 24-bit one |
| DdsCodec.FitPayload | image_converter.py:485-489 | the payload is exactly `n` bytes: the data's bytes where there are any, zero after |
| DdsCodec.DecodeUncompressed | image_converter.py:479-501 | 32-bit data gives an RGBA image and 24-bit an RGB one of the header's size; any other bit count is refused naming it |
| DdsCodec.DecodedBytes | image_converter.py:482-499 | each decoded byte is the data byte at its (channel-swapped, for B,G,R masks) index, or zero past the end of the data |
| DdsCodec.ExtraBytesIgnored | image_converter.py:489 | bytes beyond `width * height * bpp` do not change the image |
| DdsCodec.ShortPayloadZeroPadded | image_converter.py:485-486 | a short payload decodes as if zero-padded to the expected size |
| DdsCodec.DecodeSurface | image_converter.py:467-477 | a decoded surface is a valid RGB or RGBA image |
| DdsCodec.ReadDDS | image_converter.py:444-477 | the file is refused as not DDS exactly when its first four bytes are not the magic; what it returns is a valid RGB or RGBA image |
| DdsCodec.ParseFileHeader | image_converter.py:451-463 | once the 104 bytes it unpacks are there (at least 108 bytes of file), height, width, flags, FourCC, bit count and masks are the words at file offsets 12, 16, 80, 84, 88, 92, 96, 100, 104 of what was read |
| DdsCodec.ReadDDSFormatErrors | image_converter.py:467-477 | for any file with the magic and at least 108 bytes: FourCC wins over RGB and is refused naming the code; neither flag is refused naming the flags; an RGB surface reads exactly when its bit count is 24 or 32 |
| DdsCodec.ReadDDSTruncated | image_converter.py:451-463 | a file with the magic and fewer than 108 bytes fails at the first field that does not fit |
| DdsCodec.HeaderLayout | image_converter.py:511-532 | the written header is 128 bytes |
| DdsCodec.SurfaceFields | image_converter.py:511-523 | the first 32 bytes of the header start with the magic |
| DdsCodec.SurfaceFieldSlices | image_converter.py:513-523 | each four-byte slot after the magic holds its packed value: size 124, flags, height, width, pitch `width * 4`, depth 1, mip count 1 |
| DdsCodec.WrittenFlagValues | image_converter.py:515-526 | the header flags are CAPS, HEIGHT, WIDTH, PIXELFORMAT and PITCH; the pixel-format flags are RGB and ALPHAPIXELS, never FOURCC |
| DdsCodec.HeaderLayoutFields | image_converter.py:511-532 | each field of the written header reads back as the value written at its offset, the FourCC as four zero bytes |
| DdsCodec.SurfaceFieldsAt | image_converter.py:511-523 | magic, size 124, flags, height, width, pitch `width * 4`, depth 1 and mip count 1 at file offsets 0 to 28 |
| DdsCodec.PixelFormatFieldsAt | image_converter.py:525-532 | size 32, RGB and ALPHAPIXELS, bit count 32, the B,G,R,A masks and the texture cap at file offsets 76 to 108 |
| DdsCodec.ParseWrittenHeader | image_converter.py:451-463 | the reader parses the written header into the written height, width and pixel format |
| DdsCodec.WrittenHeader | image_converter.py:511-532 | the header the writer describes has the image's height and width, RGB and ALPHAPIXELS but not FOURCC, 32 bits per pixel and B,G,R,A masks |
| DdsCodec.DecodeWrittenSurface | image_converter.py:488-493 | a surface under the written header decodes as a 32-bit RGBA image with channels 0 and 2 exchanged |
| DdsCodec.EncodeDDS | image_converter.py:503-539 | writing succeeds exactly when height and pitch fit 32 bits, and writes 128 + 4 bytes per pixel; otherwise the pack error |
| DdsCodec.SwappedPixel | image_converter.py:534-535 | pixel `k` of the swapped buffer is the original pixel in B,G,R,A order |
| DdsCodec.EncodedPixel | image_converter.py:534-539 | pixel `k` is written after the header as the RGBA pixel's B, G, R, A bytes |
| DdsCodec.ReadWrittenFile | image_converter.py:444-465 | the reader splits a written file into the written header and the pixel bytes |
| DdsCodec.ReadWriteRoundTrip | image_converter.py:444-539 | reading what `write_dds` wrote gives back the image converted to RGBA |
| DdsCodec.WriteAfterReadKeepsPixels | image_converter.py:451-539 | for any readable 32-bit B,G,R,A file (from 108 bytes on), writing the decoded image reproduces the file's pixel bytes after offset 128 (fitted to the image size) under the writer's header |
| DdsCodec.EncodeRgba | image_converter.py:534-539 | an RGBA image that fits is written as the header followed by its swapped pixels |
| DdsCodec.ReadBgraFile | image_converter.py:451-493 | a readable 32-bit file with B,G,R,A masks (from 108 bytes on) decodes to its payload after offset 128, fitted to the image size, with channels 0 and 2 exchanged |
| DdsCodec.PackInto | image_converter.py:513 | `pack_into` replaces exactly the four bytes at the offset |
| DdsCodec.PackField | image_converter.py:513-532 | packing at the end of the filled part of a zero-tailed buffer extends the filled part |
| DdsCodec.PackSurfaceFields | image_converter.py:511-523 | the surface fields are packed exactly when height, width and pitch fit 32 bits, giving the written surface fields then zeros |
| DdsCodec.PackPixelFormatFields | image_converter.py:525-532 | after the surface fields, the buffer holds the whole written header |
| DdsCodec.WriteHeader | image_converter.py:511-532 | the header is built exactly when the sizes fit, and is then the written header; otherwise the pack error |
| DdsCodec.WriteDDS | image_converter.py:503-539 | the bytes written are `EncodeDDS` of the image, and reading them gives back the image converted to RGBA |
| DdsCodec.EncodedFile | image_converter.py:503-539 | an image whose sizes fit is written as the header followed by its RGBA pixels in B,G,R,A order, and that file reads back as the image in RGBA |
| ConversionWorkerModel.ModeOf | image_converter.py:558-562 | the three mode strings map exactly to the three modes |
| ConversionWorkerModel.DdsRoot | image_converter.py:555 | `join(base, "DDS", timestamp)`; partners `RootsDistinct`, `RootsEndInTimestamp` |
| ConversionWorkerModel.PngRoot | image_converter.py:556 | `join(base, "PNG", timestamp)`; partners `RootsDistinct`, `RootsEndInTimestamp` |
| ConversionWorkerModel.RootsDistinct | image_converter.py:554-556 | the DDS and PNG roots differ and both lie under the base directory |
| ConversionWorkerModel.RootsEndInTimestamp | image_converter.py:554-556 | both roots have the timestamp as their base name |
| ConversionWorkerModel.DirsToCreate | image_converter.py:558-562 | the directories `__init__` creates, in order; partner `DirsToCreateByMode` |
| ConversionWorkerModel.DirsToCreateByMode | image_converter.py:558-562 | the DDS root is created exactly in png_to_dds and auto mode, the PNG root exactly in dds_to_png and auto mode; auto creates the DDS root first |
| ConversionWorkerModel.OutputPath | image_converter.py:600-608 | `_get_output_path`; partners `OutputPathShape`, `OutputBasename`, `OutputPathsCollide` |
| ConversionWorkerModel.OutputPathShape | image_converter.py:600-608 | the output's base name is the input's stem plus the new extension, under the DDS root for `.dds` and the PNG root otherwise |
| ConversionWorkerModel.OutputBasename | image_converter.py:600-608 | the output's base name is the input's stem plus the new extension |
| ConversionWorkerModel.OutputPathsCollide | image_converter.py:600-608 | two outputs of one kind collide exactly when their inputs share a stem |
| ConversionWorkerModel.DdsAndPngOutputsNeverCollide | image_converter.py:600-608 | a DDS output and a PNG output never share a path |
| ConversionWorkerModel.WandStep | image_converter.py:613-620 | the Wand conversion; partner `WandStepResult` |
| ConversionWorkerModel.WandStepResult | image_converter.py:613-620 | the Wand attempt succeeds exactly when Wand saved the file, and otherwise fails with Wand's message |
| ConversionWorkerModel.PilWriteDdsStep | image_converter.py:622-625 | PIL open, then `write_dds`; partner `PilWriteDdsStepResult` |
| ConversionWorkerModel.PilWriteDdsStepResult | image_converter.py:622-625 | an `open` error propagates unchanged; a success means the opened image was encoded and those bytes were written to the output |
| ConversionWorkerModel.PilSavePngStep | image_converter.py:641-647 | PIL open, then save as PNG; partner `PilSavePngStepResult` |
| ConversionWorkerModel.PilSavePngStepResult | image_converter.py:641-647 | the attempt succeeds exactly when the image opened and saved; an `open` error propagates unchanged |
| ConversionWorkerModel.CodecReadDdsStep | image_converter.py:649-655 | `read_dds`, then save as PNG; partner `CodecReadDdsStepResult` |
| ConversionWorkerModel.CodecReadDdsStepResult | image_converter.py:649-655 | every error is prefixed "Failed to convert DDS: "; a success is the file's decoded image, saved as PNG |
| ConversionWorkerModel.Try | image_converter.py:610-657 | one attempt of a conversion; partner `TryRoute` |
| ConversionWorkerModel.TryRoute | image_converter.py:610-657 | a success names the attempt that produced the output |
| ConversionWorkerModel.Chain | image_converter.py:610-657 | the attempts in order, skipping missing libraries; partner `ChainResult` |
| ConversionWorkerModel.TryFirst | image_converter.py:613-655 | the first attempt returns on success and its failure propagates unless swallowed; partner `ChainResult` |
| ConversionWorkerModel.ChainResult | image_converter.py:610-657 | the result is that of some attempt whose library is available, or the no-library error; with no library available it is the no-library error |
| ConversionWorkerModel.PngToDdsRoute | image_converter.py:610-628 | `_convert_png_to_dds` once the output is known; partners `PngToDdsSteps`, `PngToDdsFallback` |
| ConversionWorkerModel.DdsToPngRoute | image_converter.py:629-657 | `_convert_dds_to_png` once the output is known; partners `DdsToPngSteps`, `DdsToPngFallback` |
| ConversionWorkerModel.PngToDdsSteps | image_converter.py:610-628 | the PNG to DDS chain is: Wand if it saves, else PIL open and `write_dds`, else "No library available" |
| ConversionWorkerModel.DdsToPngSteps | image_converter.py:630-657 | the DDS to PNG chain is: Wand if it saves, else PIL open and save if that works, else `read_dds` and save, else "No library available" |
| ConversionWorkerModel.PngToDdsFallback | image_converter.py:610-628 | a Wand failure is swallowed and the result is as without Wand; with no library the error is "No library available"; a PIL open error reaches the caller |
| ConversionWorkerModel.PngToDdsWritesReadableDds | image_converter.py:622-625 | when `write_dds` produced the file, it was written and reads back as the opened image in RGBA |
| ConversionWorkerModel.DdsToPngFallback | image_converter.py:630-657 | Wand first, then PIL; the "No library" error occurs exactly when PIL is missing and Wand did not save; with PIL every error is prefixed "Failed to convert DDS: " |
| ConversionWorkerModel.DdsToPngDecodesFile | image_converter.py:649-655 | when `read_dds` produced the image, it is what the file decodes to and its PNG save succeeded |
| ConversionWorkerModel.AsOutcome | image_converter.py:590-592 | a conversion counts as a success exactly when it returned, and a failure carries the raised message |
| ConversionWorkerModel.FileOutcome | image_converter.py:572-592 | the outcome of one file; partners `DispatchIgnoresCase` and the method `ConvertFile` |
| ConversionWorkerModel.DispatchIgnoresCase | image_converter.py:572-588 | the extension test ignores case; each mode sends matching files to its conversion and reports the others with the lower-cased extension |
| ConversionWorkerModel.Outcomes | image_converter.py:568-592 | one outcome per file; partner `OutcomeOfFile` |
| ConversionWorkerModel.OutcomeOfFile | image_converter.py:568-592 | entry `i` of the batch's outcomes is the outcome of file `i` |
| ConversionWorkerModel.Tallied | image_converter.py:570-592 | one iteration's effect on the report; partners `RunStep` and the method `ProcessFile` |
| ConversionWorkerModel.Tally | image_converter.py:565-592 | the report over a batch; partners `TallyCoversFiles`, `ErrorsSplit`, `SuccessSplits`, `FailureReported`, `ProgressNamesEachFile` |
| ConversionWorkerModel.TallyCoversFiles | image_converter.py:590-598 | successes plus errors equal the number of files |
| ConversionWorkerModel.ErrorsSplit | image_converter.py:566-592 | the failures of a batch are those of its first part followed by those of the rest, in input order |
| ConversionWorkerModel.SuccessSplits | image_converter.py:565-590 | the successes of a batch add up over its parts |
| ConversionWorkerModel.FailureReported | image_converter.py:591-592 | `(path, message)` is reported exactly when some file at that path failed with that message |
| ConversionWorkerModel.ProgressNamesEachFile | image_converter.py:570 | signal `i` names the base name of file `i`, one signal per file |
| ConversionWorkerModel.RunStep | image_converter.py:568-592 | the report over `i + 1` files is the report over `i` files with file `i`'s outcome tallied |
| ConversionWorkerModel.ReportedDir | image_converter.py:594-597 | the base directory in auto mode, the DDS root in png_to_dds mode, the PNG root in dds_to_png mode and for an unrecognised mode |
| ConversionWorkerModel.MismatchedUpperCaseExtension | image_converter.py:581-583 | in png_to_dds mode `x.DDS` fails with "Expected PNG file, got .dds" |
| ConversionWorkerModel.ConversionWorker.constructor | image_converter.py:547-562 | the roots are `<base>/DDS/<timestamp>` and `<base>/PNG/<timestamp>` and the created directories are those the mode needs, in order |
| ConversionWorkerModel.ConversionWorker.ConvertPngToDds | image_converter.py:610-628 | the early-return code produces the PNG to DDS chain's result for the routed output path |
| ConversionWorkerModel.ConversionWorker.ConvertDdsToPng | image_converter.py:630-657 | the early-return code produces the DDS to PNG chain's result for the routed output path |
| ConversionWorkerModel.ConversionWorker.ConvertFile | image_converter.py:572-588 | the `try` block's outcome for one file is the mode-and-extension dispatch |
| ConversionWorkerModel.ConversionWorker.ProcessFile | image_converter.py:568-592 | one iteration signals file `i`, then counts it or appends its `(path, message)` |
| ConversionWorkerModel.ConversionWorker.Run | image_converter.py:564-598 | the report is the tally of every file's outcome in order; the total is the file count, which equals successes plus errors; the directory is the base in auto mode, the DDS root in png_to_dds mode, the PNG root otherwise |

## Left out

- Qt: the window, the `QThread` and the signals are not modelled. The `progress` signals and the `finished` arguments are values that `Run` returns.
- Threading: the worker runs sequentially.
- The clock: `datetime.now()` is the constructor's `timestamp` parameter. Its `%Y-%m-%d_%H-%M-%S` format is not modelled. `RootsDistinct` only assumes the timestamp holds no separator.
- Directory creation: `os.makedirs` is recorded as the list of directories created. A failing `makedirs` is not modelled.
- Libraries and files: Wand/ImageMagick, PIL's `Image.open` and `save`, and file reads and writes are black-box functions in a `Backends` value. The `with` blocks that release them are not modelled.
- Image modes: only the PIL modes L, LA, RGB and RGBA are modelled, for `convert('RGBA')` and for opened images. Palette and the other modes are left out.
- Paths and case: paths are POSIX paths. `lower()` folds ASCII letters only.
- `struct.error` wording: the messages for a short header and for an oversized field follow CPython's, which is not in the converter's source.
- The file in `read_dds`: the successive reads (4 bytes, 124 bytes, the rest) are modelled as slices of the whole file.
- Unknown modes: a mode string other than the three the worker tests is kept as `Unrecognised`. Every file then counts as a success, as the code does.
- Other exceptions: errors the model does not name (out of memory, interrupted I/O) are not modelled.

/**
 * The batch driver `ConversionWorker`: it picks the timestamped output roots,
 * routes each output file to one of them, converts each input through an
 * ordered chain of libraries, and tallies successes and failures without
 * ever stopping early.
 *
 * The libraries (Wand/ImageMagick, PIL) and the file system are black boxes: a
 * `Backends` value says which libraries were importable and what each
 * library call or file access returns for given paths.
 */
module ConversionWorkerModel {
  import opened Bytes
  import opened Text
  import opened Paths
  import opened Results
  import opened DdsCodec

  const PNG_EXT: string := ".png"
  const DDS_EXT: string := ".dds"
  const NO_LIBRARY: string := "No library available for "
  const NO_LIBRARY_PNG_TO_DDS: string := NO_LIBRARY + "PNG to DDS conversion"
  const NO_LIBRARY_DDS_TO_PNG: string := NO_LIBRARY + "DDS to PNG conversion"
  const FAILED_DDS: string := "Failed to convert DDS: "

  /** The three mode strings the worker tests for; any other string is `Unrecognised`. */
  datatype Mode = PngToDds | DdsToPng | Auto | Unrecognised

  function ModeOf(name: string): (m: Mode)
    ensures m == PngToDds <==> name == "png_to_dds"
    ensures m == DdsToPng <==> name == "dds_to_png"
    ensures m == Auto <==> name == "auto"
  {
    if name == "png_to_dds" then PngToDds
    else if name == "dds_to_png" then DdsToPng
    else if name == "auto" then Auto
    else Unrecognised
  }

  /** An image as `Image.open` hands it over: its byte count matches its size and mode. */
  type OpenedImage = img: Image | img.Valid() witness Image(L, 0, 0, [])

  /**
   * What the environment provides. Each step returns `Done`/`Ok` or the
   * message of the exception it raises.
   */
  datatype Backends = Backends(
    wandAvailable: bool,
    pilAvailable: bool,
    /** `WandImage(filename=input)`, set `format`, `save(filename=output)`. */
    wandConvert: (string, string, string) -> Outcome,
    /** `Image.open(path)`. */
    pilOpen: string -> Result<OpenedImage, string>,
    /** `image.save(path, 'PNG')`. */
    pilSavePng: (Image, string) -> Outcome,
    /** `open(path, 'rb').read()`. */
    readFile: string -> Result<seq<byte>, string>,
    /** `open(path, 'wb')` and writing the bytes. */
    writeFile: (string, seq<byte>) -> Outcome)

  /** Which step of a fallback chain produced the output file. */
  datatype Route =
    | WandSaved
    | PilSaved
    | CodecWrote(bytes: seq<byte>)
    | CodecDecoded(image: Image)

  /** The mode and the two output roots, which fix where each file goes. */
  datatype Routing = Routing(mode: Mode, ddsOutputDir: string, pngOutputDir: string)

  /** `os.path.join(base, "DDS", timestamp)` */
  function DdsRoot(base: string, timestamp: string): (dir: string)
  {
    Join(Join(base, "DDS"), timestamp)
  }

  /** `os.path.join(base, "PNG", timestamp)` */
  function PngRoot(base: string, timestamp: string): (dir: string)
  {
    Join(Join(base, "PNG"), timestamp)
  }

  /** A timestamp holds no separator, so the two roots never coincide. */
  lemma RootsDistinct(base: string, timestamp: string)
    requires SEP !in timestamp
    ensures DdsRoot(base, timestamp) != PngRoot(base, timestamp)
    ensures base <= DdsRoot(base, timestamp) && base <= PngRoot(base, timestamp)
  {
    var prefix := if base == "" || base[|base| - 1] == SEP then base else base + [SEP];
    var d, p := Join(base, "DDS"), Join(base, "PNG");
    assert d == prefix + "DDS" && p == prefix + "PNG";
    assert timestamp == [] || timestamp[0] != SEP;
    assert DdsRoot(base, timestamp) == d + [SEP] + timestamp;
    assert PngRoot(base, timestamp) == p + [SEP] + timestamp;
    assert DdsRoot(base, timestamp)[|prefix|] == 'D';
    assert PngRoot(base, timestamp)[|prefix|] == 'P';
    JoinExtends(base, "DDS");
    JoinExtends(base, "PNG");
  }

  /** Both roots end in the timestamp. */
  lemma RootsEndInTimestamp(base: string, timestamp: string)
    requires SEP !in timestamp
    ensures Basename(DdsRoot(base, timestamp)) == timestamp == Basename(PngRoot(base, timestamp))
  {
    BasenameOfJoin(Join(base, "DDS"), timestamp);
    BasenameOfJoin(Join(base, "PNG"), timestamp);
  }

  /** The roots `__init__` creates, in the order it creates them. */
  function DirsToCreate(mode: Mode, ddsDir: string, pngDir: string): (dirs: seq<string>)
  {
    (if mode == PngToDds || mode == Auto then [ddsDir] else [])
    + (if mode == DdsToPng || mode == Auto then [pngDir] else [])
  }

  /** The DDS root is created exactly for png_to_dds and auto, the PNG root exactly for dds_to_png and auto. */
  lemma DirsToCreateByMode(mode: Mode, ddsDir: string, pngDir: string)
    requires ddsDir != pngDir
    ensures ddsDir in DirsToCreate(mode, ddsDir, pngDir) <==> mode == PngToDds || mode == Auto
    ensures pngDir in DirsToCreate(mode, ddsDir, pngDir) <==> mode == DdsToPng || mode == Auto
    ensures |DirsToCreate(mode, ddsDir, pngDir)| <= 2
    ensures mode == Auto ==> DirsToCreate(mode, ddsDir, pngDir) == [ddsDir, pngDir]
  {
  }

  /** `_get_output_path`: the stem of the input's base name plus the new extension, under the root for that extension. */
  function OutputPath(r: Routing, input: string, newExt: string): (output: string)
  {
    Join(if newExt == DDS_EXT then r.ddsOutputDir else r.pngOutputDir, Stem(input) + newExt)
  }

  /** The output's base name is the input's stem with the new extension, and it lies under the right root. */
  lemma OutputPathShape(r: Routing, input: string, newExt: string)
    requires SEP !in newExt
    ensures Basename(OutputPath(r, input, newExt)) == Stem(input) + newExt
    ensures newExt == DDS_EXT ==> r.ddsOutputDir <= OutputPath(r, input, newExt)
    ensures newExt != DDS_EXT ==> r.pngOutputDir <= OutputPath(r, input, newExt)
  {
    var name := Stem(input) + newExt;
    OutputBasename(r, input, newExt);
    if |name| > 0 {
      assert name[0] in name;
    }
    JoinExtends(if newExt == DDS_EXT then r.ddsOutputDir else r.pngOutputDir, name);
  }

  /** The output's base name is the input's stem with the new extension. */
  lemma OutputBasename(r: Routing, input: string, newExt: string)
    requires SEP !in newExt
    ensures SEP !in Stem(input) + newExt
    ensures Basename(OutputPath(r, input, newExt)) == Stem(input) + newExt
  {
    var name := Stem(input) + newExt;
    assert SEP !in name by {
      assert forall i :: 0 <= i < |name| ==> name[i] == if i < |Stem(input)| then Stem(input)[i] else newExt[i - |Stem(input)|];
    }
    BasenameOfJoin(if newExt == DDS_EXT then r.ddsOutputDir else r.pngOutputDir, name);
  }

  /** Two outputs of the same kind collide exactly when their inputs have the same stem. */
  lemma OutputPathsCollide(r: Routing, p: string, q: string, newExt: string)
    requires SEP !in newExt
    ensures OutputPath(r, p, newExt) == OutputPath(r, q, newExt) <==> Stem(p) == Stem(q)
  {
    if OutputPath(r, p, newExt) == OutputPath(r, q, newExt) {
      OutputPathShape(r, p, newExt);
      OutputPathShape(r, q, newExt);
      assert (Stem(p) + newExt)[..|Stem(p)|] == Stem(p);
      assert (Stem(q) + newExt)[..|Stem(q)|] == Stem(q);
    }
  }

  /** A name ending in `.dds` is never a name ending in `.png`. */
  lemma ExtensionsDiffer(s: string, t: string)
    ensures s + DDS_EXT != t + PNG_EXT
  {
    var a, b := s + DDS_EXT, t + PNG_EXT;
    if |a| == |b| {
      assert a[|s| + 1] == 'd' && b[|t| + 1] == 'p';
    }
  }

  /** A DDS output and a PNG output never share a path, whatever the inputs and roots. */
  lemma DdsAndPngOutputsNeverCollide(r: Routing, p: string, q: string)
    ensures OutputPath(r, p, DDS_EXT) != OutputPath(r, q, PNG_EXT)
  {
    ExtensionsDiffer(Stem(p), Stem(q));
    OutputBasename(r, p, DDS_EXT);
    OutputBasename(r, q, PNG_EXT);
  }

  /** One library attempt in a conversion's fallback chain. */
  datatype Attempt =
    | WandConvert(format: string)  // open with Wand, set the format, save
    | PilWriteDds                  // `Image.open`, then `write_dds`
    | PilSavePng                   // `Image.open`, then `save(output, 'PNG')`
    | CodecReadDds                 // `read_dds`, then `save(output, 'PNG')`

  /** The library the attempt needs was importable. */
  predicate Available(a: Attempt, b: Backends)
  {
    if a.WandConvert? then b.wandAvailable else b.pilAvailable
  }

  /** A failure of the attempt is caught by `except Exception: pass` and the next one is tried. */
  predicate Swallowed(a: Attempt)
  {
    a.WandConvert? || a.PilSavePng?
  }

  /** `WandImage(filename=input)`, set `format`, `save(filename=output)`. */
  function WandStep(b: Backends, input: string, output: string, format: string): (r: Result<Route, string>)
  {
    match b.wandConvert(input, output, format)
    case Done => Ok(WandSaved)
    case Failed(m) => Err(m)
  }

  /** `Image.open(input)`, then `write_dds(img, output)`. */
  function PilWriteDdsStep(b: Backends, input: string, output: string): (r: Result<Route, string>)
  {
    match b.pilOpen(input)
    case Err(m) => Err(m)
    case Ok(img) =>
      match EncodeDDS(img)
      case Err(e) => Err(Message(e))
      case Ok(bytes) =>
        match b.writeFile(output, bytes)
        case Failed(m) => Err(m)
        case Done => Ok(CodecWrote(bytes))
  }

  /** `Image.open(input)`, then `save(output, 'PNG')`. */
  function PilSavePngStep(b: Backends, input: string, output: string): (r: Result<Route, string>)
  {
    match b.pilOpen(input)
    case Err(m) => Err(m)
    case Ok(img) =>
      match b.pilSavePng(img, output)
      case Failed(m) => Err(m)
      case Done => Ok(PilSaved)
  }

  /** `read_dds(input)`, then `save(output, 'PNG')`; any failure is re-raised as "Failed to convert DDS: ...". */
  function CodecReadDdsStep(b: Backends, input: string, output: string): (r: Result<Route, string>)
  {
    match b.readFile(input)
    case Err(m) => Err(FAILED_DDS + m)
    case Ok(file) =>
      match ReadDDS(file)
      case Err(e) => Err(FAILED_DDS + Message(e))
      case Ok(img) =>
        match b.pilSavePng(img, output)
        case Failed(m) => Err(FAILED_DDS + m)
        case Done => Ok(CodecDecoded(img))
  }

  /** What one attempt produces, or the message of the exception it raises. */
  function Try(a: Attempt, b: Backends, input: string, output: string): (r: Result<Route, string>)
  {
    match a
    case WandConvert(format) => WandStep(b, input, output, format)
    case PilWriteDds => PilWriteDdsStep(b, input, output)
    case PilSavePng => PilSavePngStep(b, input, output)
    case CodecReadDds => CodecReadDdsStep(b, input, output)
  }

  /** The Wand attempt succeeds exactly when Wand saved the file, and otherwise raises Wand's message. */
  lemma WandStepResult(b: Backends, input: string, output: string, format: string)
    ensures var r := WandStep(b, input, output, format);
            (r.Ok? <==> b.wandConvert(input, output, format) == Done)
            && (r.Ok? ==> r.value == WandSaved)
            && (r.Err? ==> r.error == b.wandConvert(input, output, format).message)
  {
  }

  /** PIL's `open` error propagates; a success means `write_dds`'s bytes were encoded and written. */
  lemma PilWriteDdsStepResult(b: Backends, input: string, output: string)
    ensures var r := PilWriteDdsStep(b, input, output);
            (b.pilOpen(input).Err? ==> r == Err(b.pilOpen(input).error))
            && (r.Ok? ==> r.value.CodecWrote? && b.pilOpen(input).Ok?
                          && EncodeDDS(b.pilOpen(input).value) == Ok(r.value.bytes)
                          && b.writeFile(output, r.value.bytes) == Done)
  {
  }

  /** PIL's PNG save succeeds exactly when the image opened and saved. */
  lemma PilSavePngStepResult(b: Backends, input: string, output: string)
    ensures var r := PilSavePngStep(b, input, output);
            (r.Ok? <==> b.pilOpen(input).Ok? && b.pilSavePng(b.pilOpen(input).value, output) == Done)
            && (r.Ok? ==> r.value == PilSaved)
            && (b.pilOpen(input).Err? ==> r == Err(b.pilOpen(input).error))
  {
  }

  /** The codec fallback prefixes every error, and a success is the decoded file saved as PNG. */
  lemma CodecReadDdsStepResult(b: Backends, input: string, output: string)
    ensures var r := CodecReadDdsStep(b, input, output);
            (r.Err? ==> FAILED_DDS <= r.error)
            && (r.Ok? ==> r.value.CodecDecoded? && b.readFile(input).Ok?
                          && ReadDDS(b.readFile(input).value) == Ok(r.value.image)
                          && b.pilSavePng(r.value.image, output) == Done)
  {
  }

  /** A route names the attempt that produced the file. */
  lemma TryRoute(a: Attempt, b: Backends, input: string, output: string)
    ensures var r := Try(a, b, input, output);
            r.Ok? ==> (r.value.WandSaved? <==> a.WandConvert?) && (r.value.CodecWrote? <==> a.PilWriteDds?)
                      && (r.value.PilSaved? <==> a.PilSavePng?) && (r.value.CodecDecoded? <==> a.CodecReadDds?)
  {
  }

  /**
   * Runs the attempts in order, skipping those whose library is missing; when
   * nothing is left the conversion fails with `noLibrary`.
   */
  function Chain(attempts: seq<Attempt>, b: Backends, input: string, output: string, noLibrary: string)
    : (r: Result<Route, string>)
    decreases |attempts|, 1
  {
    if attempts == [] then Err(noLibrary)
    else if Available(attempts[0], b) then TryFirst(attempts, b, input, output, noLibrary)
    else Chain(attempts[1..], b, input, output, noLibrary)
  }

  /** The first attempt's success returns; its failure propagates unless swallowed, then the rest is tried. */
  function TryFirst(attempts: seq<Attempt>, b: Backends, input: string, output: string, noLibrary: string)
    : (r: Result<Route, string>)
    requires attempts != []
    decreases |attempts|, 0
  {
    var r := Try(attempts[0], b, input, output);
    if r.Ok? || !Swallowed(attempts[0]) then r
    else Chain(attempts[1..], b, input, output, noLibrary)
  }

  /** `_convert_png_to_dds`: Wand, its failure swallowed; then PIL with `write_dds`. */
  const PNG_TO_DDS_ATTEMPTS: seq<Attempt> := [WandConvert("dds"), PilWriteDds]

  /** `_convert_dds_to_png`: Wand, then PIL open and save, both swallowed; then `read_dds`. */
  const DDS_TO_PNG_ATTEMPTS: seq<Attempt> := [WandConvert("png"), PilSavePng, CodecReadDds]

  /** `_convert_png_to_dds` once the output path is known. */
  function PngToDdsRoute(b: Backends, input: string, output: string): (r: Result<Route, string>)
  {
    Chain(PNG_TO_DDS_ATTEMPTS, b, input, output, NO_LIBRARY_PNG_TO_DDS)
  }

  /** `_convert_dds_to_png` once the output path is known. */
  function DdsToPngRoute(b: Backends, input: string, output: string): (r: Result<Route, string>)
  {
    Chain(DDS_TO_PNG_ATTEMPTS, b, input, output, NO_LIBRARY_DDS_TO_PNG)
  }

  /**
   * What a chain returns is what some available attempt returned, or the
   * no-library error; and when no attempt's library is available it is the
   * no-library error.
   */
  lemma {:induction false} ChainResult(attempts: seq<Attempt>, b: Backends, input: string, output: string, noLibrary: string)
    ensures var r := Chain(attempts, b, input, output, noLibrary);
            r == Err(noLibrary)
            || exists i :: 0 <= i < |attempts| && Available(attempts[i], b) && Try(attempts[i], b, input, output) == r
    ensures (forall i :: 0 <= i < |attempts| ==> !Available(attempts[i], b)) ==>
              Chain(attempts, b, input, output, noLibrary) == Err(noLibrary)
    decreases |attempts|
  {
    if attempts != [] {
      var rest := attempts[1..];
      ChainResult(rest, b, input, output, noLibrary);
      var r := Chain(attempts, b, input, output, noLibrary);
      if r != Err(noLibrary) && r == Chain(rest, b, input, output, noLibrary) {
        var i :| 0 <= i < |rest| && Available(rest[i], b) && Try(rest[i], b, input, output) == r;
        assert attempts[i + 1] == rest[i];
      }
      if forall i :: 0 <= i < |attempts| ==> !Available(attempts[i], b) {
        assert !Available(attempts[0], b);
        assert forall i :: 0 <= i < |rest| ==> attempts[i + 1] == rest[i];
      }
    }
  }

  /** The PNG to DDS chain unrolled: Wand if it saves, else PIL with `write_dds`, else no library. */
  lemma PngToDdsSteps(b: Backends, input: string, output: string)
    ensures PngToDdsRoute(b, input, output)
         == if b.wandAvailable && b.wandConvert(input, output, "dds") == Done then Ok(WandSaved)
            else if b.pilAvailable then PilWriteDdsStep(b, input, output)
            else Err(NO_LIBRARY_PNG_TO_DDS)
  {
    var rest := PNG_TO_DDS_ATTEMPTS[1..];
    assert rest == [PilWriteDds] && rest[1..] == [];
    assert Chain(rest, b, input, output, NO_LIBRARY_PNG_TO_DDS)
        == if b.pilAvailable then PilWriteDdsStep(b, input, output) else Err(NO_LIBRARY_PNG_TO_DDS);
  }

  /** The DDS to PNG chain unrolled: Wand, then PIL open and save, then `read_dds`, else no library. */
  lemma DdsToPngSteps(b: Backends, input: string, output: string)
    ensures DdsToPngRoute(b, input, output)
         == if b.wandAvailable && b.wandConvert(input, output, "png") == Done then Ok(WandSaved)
            else if b.pilAvailable && PilSavePngStep(b, input, output).Ok? then Ok(PilSaved)
            else if b.pilAvailable then CodecReadDdsStep(b, input, output)
            else Err(NO_LIBRARY_DDS_TO_PNG)
  {
    var rest := DDS_TO_PNG_ATTEMPTS[1..];
    assert rest == [PilSavePng, CodecReadDds] && rest[1..] == [CodecReadDds] && rest[1..][1..] == [];
    assert Chain(rest[1..], b, input, output, NO_LIBRARY_DDS_TO_PNG)
        == if b.pilAvailable then CodecReadDdsStep(b, input, output) else Err(NO_LIBRARY_DDS_TO_PNG);
    assert Chain(rest, b, input, output, NO_LIBRARY_DDS_TO_PNG)
        == if b.pilAvailable && PilSavePngStep(b, input, output).Ok? then Ok(PilSaved)
           else Chain(rest[1..], b, input, output, NO_LIBRARY_DDS_TO_PNG);
  }

  /** The order of attempts from PNG to DDS and what reaches the caller. */
  lemma PngToDdsFallback(b: Backends, input: string, output: string)
    ensures b.wandAvailable && b.wandConvert(input, output, "dds") == Done ==>
              PngToDdsRoute(b, input, output) == Ok(WandSaved)
    ensures !(b.wandAvailable && b.wandConvert(input, output, "dds") == Done) ==>
              PngToDdsRoute(b, input, output) == PngToDdsRoute(b.(wandAvailable := false), input, output)
    ensures !b.wandAvailable && !b.pilAvailable ==> PngToDdsRoute(b, input, output) == Err(NO_LIBRARY_PNG_TO_DDS)
    ensures b.pilAvailable && b.pilOpen(input).Err? && !(b.wandAvailable && b.wandConvert(input, output, "dds") == Done) ==>
              PngToDdsRoute(b, input, output) == Err(b.pilOpen(input).error)
    ensures PngToDdsRoute(b, input, output).Ok? ==>
              PngToDdsRoute(b, input, output).value.WandSaved? || PngToDdsRoute(b, input, output).value.CodecWrote?
  {
  }

  /** When the DDS writer produced the file, it holds exactly what was written and reads back as the RGBA image. */
  lemma PngToDdsWritesReadableDds(b: Backends, input: string, output: string)
    requires PngToDdsRoute(b, input, output).Ok? && PngToDdsRoute(b, input, output).value.CodecWrote?
    ensures b.pilAvailable && b.pilOpen(input).Ok?
    ensures var bytes := PngToDdsRoute(b, input, output).value.bytes;
            b.writeFile(output, bytes) == Done
            && ReadDDS(bytes) == Ok(ToRGBA(b.pilOpen(input).value))
  {
    ReadWriteRoundTrip(b.pilOpen(input).value);
  }

  /** The order of attempts from DDS to PNG and what reaches the caller. */
  lemma DdsToPngFallback(b: Backends, input: string, output: string)
    ensures b.wandAvailable && b.wandConvert(input, output, "png") == Done ==>
              DdsToPngRoute(b, input, output) == Ok(WandSaved)
    ensures !(b.wandAvailable && b.wandConvert(input, output, "png") == Done)
            && b.pilAvailable && b.pilOpen(input).Ok? && b.pilSavePng(b.pilOpen(input).value, output) == Done ==>
              DdsToPngRoute(b, input, output) == Ok(PilSaved)
    ensures DdsToPngRoute(b, input, output) == Err(NO_LIBRARY_DDS_TO_PNG) <==>
              !b.pilAvailable && !(b.wandAvailable && b.wandConvert(input, output, "png") == Done)
    ensures DdsToPngRoute(b, input, output).Err? && b.pilAvailable ==>
              FAILED_DDS <= DdsToPngRoute(b, input, output).error
  {
    var r := DdsToPngRoute(b, input, output);
    assert NO_LIBRARY_DDS_TO_PNG[0] == 'N';
    if r.Err? && b.pilAvailable {
      assert FAILED_DDS <= r.error;
      assert r.error[0] == 'F';
    }
  }

  /** When `read_dds` produced the image, it is what the file decodes to and the PNG save succeeded. */
  lemma DdsToPngDecodesFile(b: Backends, input: string, output: string)
    requires DdsToPngRoute(b, input, output).Ok? && DdsToPngRoute(b, input, output).value.CodecDecoded?
    ensures b.pilAvailable && b.readFile(input).Ok?
    ensures var img := DdsToPngRoute(b, input, output).value.image;
            ReadDDS(b.readFile(input).value) == Ok(img)
            && b.pilSavePng(img, output) == Done
            && img.Valid() && img.mode in {RGB, RGBA}
  {
  }

  /** A step's result as the `try` block around it sees it. */
  function AsOutcome(r: Result<Route, string>): (o: Outcome)
    ensures o.Done? <==> r.Ok?
    ensures o.Failed? ==> o.message == r.error
  {
    if r.Ok? then Done else Failed(r.error)
  }

  /** The body of `run`'s `try` for one file: dispatch on mode and lower-cased extension. */
  function FileOutcome(r: Routing, b: Backends, path: string): (o: Outcome)
  {
    var ext := Lower(Ext(path));
    match r.mode
    case Auto =>
      if ext == PNG_EXT then AsOutcome(PngToDdsRoute(b, path, OutputPath(r, path, DDS_EXT)))
      else if ext == DDS_EXT then AsOutcome(DdsToPngRoute(b, path, OutputPath(r, path, PNG_EXT)))
      else Failed("Unsupported format: " + ext)
    case PngToDds =>
      if ext != PNG_EXT then Failed("Expected PNG file, got " + ext)
      else AsOutcome(PngToDdsRoute(b, path, OutputPath(r, path, DDS_EXT)))
    case DdsToPng =>
      if ext != DDS_EXT then Failed("Expected DDS file, got " + ext)
      else AsOutcome(DdsToPngRoute(b, path, OutputPath(r, path, PNG_EXT)))
    case Unrecognised => Done
  }

  /** The extension test ignores case: `.PNG`, `.Png` and `.png` dispatch alike. */
  lemma DispatchIgnoresCase(r: Routing, b: Backends, path: string)
    ensures SameIgnoringCase(Ext(path), PNG_EXT) && (r.mode == Auto || r.mode == PngToDds) ==>
              FileOutcome(r, b, path) == AsOutcome(PngToDdsRoute(b, path, OutputPath(r, path, DDS_EXT)))
    ensures SameIgnoringCase(Ext(path), DDS_EXT) && (r.mode == Auto || r.mode == DdsToPng) ==>
              FileOutcome(r, b, path) == AsOutcome(DdsToPngRoute(b, path, OutputPath(r, path, PNG_EXT)))
    ensures !SameIgnoringCase(Ext(path), PNG_EXT) && r.mode == PngToDds ==>
              FileOutcome(r, b, path) == Failed("Expected PNG file, got " + Lower(Ext(path)))
    ensures !SameIgnoringCase(Ext(path), DDS_EXT) && r.mode == DdsToPng ==>
              FileOutcome(r, b, path) == Failed("Expected DDS file, got " + Lower(Ext(path)))
    ensures !SameIgnoringCase(Ext(path), PNG_EXT) && !SameIgnoringCase(Ext(path), DDS_EXT) && r.mode == Auto ==>
              FileOutcome(r, b, path) == Failed("Unsupported format: " + Lower(Ext(path)))
  {
    assert Lower(PNG_EXT) == PNG_EXT;
    assert Lower(DDS_EXT) == DDS_EXT;
    LowerMatchesCaseVariants(Ext(path), PNG_EXT);
    LowerMatchesCaseVariants(Ext(path), DDS_EXT);
  }

  /** The outcome of each file of the batch, in input order. */
  function Outcomes(r: Routing, b: Backends, files: seq<string>): (o: seq<Outcome>)
    ensures |o| == |files|
  {
    if files == [] then []
    else Outcomes(r, b, files[..|files| - 1]) + [FileOutcome(r, b, files[|files| - 1])]
  }

  /** Entry `i` is the outcome of file `i`. */
  lemma {:induction false} OutcomeOfFile(r: Routing, b: Backends, files: seq<string>, i: nat)
    requires i < |files|
    ensures Outcomes(r, b, files)[i] == FileOutcome(r, b, files[i])
    decreases |files|
  {
    var n := |files| - 1;
    if i < n {
      OutcomesInit(r, b, files, i);
      OutcomeOfFile(r, b, files[..n], i);
      assert files[..n][i] == files[i];
    } else {
      OutcomesLast(r, b, files, i);
    }
  }

  /** The last entry is the last file's outcome. */
  lemma OutcomesLast(r: Routing, b: Backends, files: seq<string>, i: nat)
    requires i == |files| - 1
    ensures Outcomes(r, b, files)[i] == FileOutcome(r, b, files[i])
  {
    var init := Outcomes(r, b, files[..i]);
    assert |init| == i;
    assert Outcomes(r, b, files) == init + [FileOutcome(r, b, files[i])];
  }

  /** Earlier entries are those of the batch without its last file. */
  lemma OutcomesInit(r: Routing, b: Backends, files: seq<string>, i: nat)
    requires i < |files| - 1
    ensures Outcomes(r, b, files)[i] == Outcomes(r, b, files[..|files| - 1])[i]
  {
  }

  /** Extending the batch by one file adds that file's outcome. */
  lemma OutcomesStep(r: Routing, b: Backends, files: seq<string>, i: nat)
    requires i < |files|
    ensures Outcomes(r, b, files[..i + 1]) == Outcomes(r, b, files[..i]) + [FileOutcome(r, b, files[i])]
  {
    var next := files[..i + 1];
    assert next[..i] == files[..i];
    assert next[i] == files[i];
  }

  /** What `run` has counted, collected and signalled so far. */
  datatype Report = Report(success: nat, errors: seq<(string, string)>, progress: seq<(nat, string)>)

  /**
   * One iteration of `run` on file `i`: its `progress` signal, then one more
   * success, or one more `(filepath, message)` pair.
   */
  function Tallied(rep: Report, i: nat, path: string, o: Outcome): (next: Report)
  {
    Report(rep.success + (if o.Done? then 1 else 0),
           rep.errors + (if o.Failed? then [(path, o.message)] else []),
           rep.progress + [(i, "Converting: " + Basename(path))])
  }

  /** The report once `run` has gone through `files`, file `k` having outcome `outcomes[k]`. */
  function Tally(files: seq<string>, outcomes: seq<Outcome>): (rep: Report)
    requires |files| == |outcomes|
  {
    if files == [] then Report(0, [], [])
    else
      var n := |files| - 1;
      Tallied(Tally(files[..n], outcomes[..n]), n, files[n], outcomes[n])
  }

  /** Going through one more file tallies its outcome onto the report so far. */
  lemma TallyStep(files: seq<string>, outcomes: seq<Outcome>, path: string, o: Outcome)
    requires |files| == |outcomes|
    ensures Tally(files + [path], outcomes + [o]) == Tallied(Tally(files, outcomes), |files|, path, o)
  {
    assert (files + [path])[..|files|] == files;
    assert (outcomes + [o])[..|outcomes|] == outcomes;
  }

  /** Every file is either counted as a success or reported as a failure, never both. */
  lemma {:induction false} TallyCoversFiles(files: seq<string>, outcomes: seq<Outcome>)
    requires |files| == |outcomes|
    ensures Tally(files, outcomes).success + |Tally(files, outcomes).errors| == |files|
  {
    if files != [] {
      var n := |files| - 1;
      TallyCoversFiles(files[..n], outcomes[..n]);
    }
  }

  lemma AppendAssoc<T>(a: seq<T>, b: seq<T>, c: seq<T>)
    ensures (a + b) + c == a + (b + c)
  {
  }

  /** Peeling the last element off a non-empty second part. */
  lemma SplitLast<T>(xs: seq<T>, ys: seq<T>)
    requires ys != []
    ensures xs + ys == (xs + ys[..|ys| - 1]) + [ys[|ys| - 1]]
    ensures ys == ys[..|ys| - 1] + [ys[|ys| - 1]]
  {
  }

  /** Splitting a batch anywhere: its failures are those of the first part, then those of the second. */
  lemma {:induction false} ErrorsSplit(xs: seq<string>, xo: seq<Outcome>, ys: seq<string>, yo: seq<Outcome>)
    requires |xs| == |xo| && |ys| == |yo|
    ensures Tally(xs + ys, xo + yo).errors == Tally(xs, xo).errors + Tally(ys, yo).errors
  {
    if ys == [] {
      assert xs + ys == xs && xo + yo == xo;
    } else {
      var n := |ys| - 1;
      var ys', yo' := ys[..n], yo[..n];
      SplitLast(xs, ys);
      SplitLast(xo, yo);
      ErrorsSplit(xs, xo, ys', yo');
      TallyStep(xs + ys', xo + yo', ys[n], yo[n]);
      TallyStep(ys', yo', ys[n], yo[n]);
      AppendAssoc(Tally(xs, xo).errors, Tally(ys', yo').errors,
                  if yo[n].Failed? then [(ys[n], yo[n].message)] else []);
    }
  }

  /** Splitting a batch anywhere: its successes are those of the first part plus those of the second. */
  lemma {:induction false} SuccessSplits(xs: seq<string>, xo: seq<Outcome>, ys: seq<string>, yo: seq<Outcome>)
    requires |xs| == |xo| && |ys| == |yo|
    ensures Tally(xs + ys, xo + yo).success == Tally(xs, xo).success + Tally(ys, yo).success
  {
    if ys == [] {
      assert xs + ys == xs && xo + yo == xo;
    } else {
      var n := |ys| - 1;
      var ys', yo' := ys[..n], yo[..n];
      SplitLast(xs, ys);
      SplitLast(xo, yo);
      SuccessSplits(xs, xo, ys', yo');
      TallyStep(xs + ys', xo + yo', ys[n], yo[n]);
      TallyStep(ys', yo', ys[n], yo[n]);
    }
  }

  /** A pair is reported exactly when some input file failed with that message. */
  lemma {:induction false} FailureReported(files: seq<string>, outcomes: seq<Outcome>, path: string, message: string)
    requires |files| == |outcomes|
    ensures (path, message) in Tally(files, outcomes).errors <==>
              exists i :: 0 <= i < |files| && files[i] == path && outcomes[i] == Failed(message)
  {
    if files != [] {
      var n := |files| - 1;
      var init, initOutcomes := files[..n], outcomes[..n];
      FailureReported(init, initOutcomes, path, message);
      if (path, message) in Tally(init, initOutcomes).errors {
        var i :| 0 <= i < n && init[i] == path && initOutcomes[i] == Failed(message);
        assert files[i] == init[i] && outcomes[i] == initOutcomes[i];
      }
    }
  }

  /** Signal `i` names file `i`, one signal per file. */
  lemma {:induction false} ProgressNamesEachFile(files: seq<string>, outcomes: seq<Outcome>)
    requires |files| == |outcomes|
    ensures |Tally(files, outcomes).progress| == |files|
    ensures forall i :: 0 <= i < |files| ==> Tally(files, outcomes).progress[i] == (i, "Converting: " + Basename(files[i]))
  {
    if files != [] {
      var n := |files| - 1;
      var init := Tally(files[..n], outcomes[..n]).progress;
      ProgressNamesEachFile(files[..n], outcomes[..n]);
      var all := Tally(files, outcomes).progress;
      assert all == init + [(n, "Converting: " + Basename(files[n]))];
      forall i | 0 <= i < |files|
        ensures all[i] == (i, "Converting: " + Basename(files[i]))
      {
        if i < n {
          assert all[i] == init[i];
          assert files[..n][i] == files[i];
        }
      }
    }
  }

  /** The report `run` builds over the first `i + 1` files, from the one over the first `i`. */
  lemma RunStep(r: Routing, b: Backends, files: seq<string>, i: nat)
    requires i < |files|
    ensures Tally(files[..i + 1], Outcomes(r, b, files[..i + 1]))
         == Tallied(Tally(files[..i], Outcomes(r, b, files[..i])), i, files[i], FileOutcome(r, b, files[i]))
  {
    OutcomesStep(r, b, files, i);
    assert files[..i + 1] == files[..i] + [files[i]];
    TallyStep(files[..i], Outcomes(r, b, files[..i]), files[i], FileOutcome(r, b, files[i]));
  }

  /** The directory `run` reports at the end. */
  function ReportedDir(mode: Mode, base: string, ddsDir: string, pngDir: string): (dir: string)
    ensures mode == Auto ==> dir == base
    ensures mode == PngToDds ==> dir == ddsDir
    ensures mode == DdsToPng || mode == Unrecognised ==> dir == pngDir
  {
    if mode == Auto then base
    else if mode == PngToDds then ddsDir
    else pngDir
  }

  /** `x.DDS` is its own base name and its extension lower-cases to `.dds`. */
  lemma UpperCaseDdsName()
    ensures Basename("x.DDS") == "x.DDS" && Lower(Ext("x.DDS")) == ".dds"
  {
    var p := "x.DDS";
    assert p[..4] == "x.DD" && p[..4][..3] == "x.D" && p[..4][..3][..2] == "x.";
    assert RFind("x.", EXTSEP) == 1;
    assert RFind(p, EXTSEP) == 1;
    assert RFind(p, SEP) == -1;
    assert HasStemBefore(p, 0, 1) by { assert p[0] != EXTSEP; }
    assert Ext(p) == ".DDS";
    assert Lower(".DDS")[1] == 'd' && Lower(".DDS")[3] == 's';
  }

  /** In png_to_dds mode a file named `x.DDS` fails, reported with the lower-cased extension. */
  lemma MismatchedUpperCaseExtension(r: Routing, b: Backends)
    requires r.mode == PngToDds
    ensures FileOutcome(r, b, "x.DDS") == Failed("Expected PNG file, got " + ".dds")
  {
    UpperCaseDdsName();
  }

  /** The worker thread: its settings are fixed when it is created. */
  class ConversionWorker {
    const files: seq<string>
    const mode: Mode
    const baseOutputDir: string
    const timestamp: string
    const ddsOutputDir: string
    const pngOutputDir: string
    /** The directories handed to `os.makedirs`, in order. */
    const createdDirs: seq<string>

    /** `__init__`, with the `datetime.now()` timestamp given by the caller. */
    constructor(files: seq<string>, modeName: string, baseOutputDir: string, timestamp: string)
      ensures this.files == files && this.mode == ModeOf(modeName)
      ensures this.baseOutputDir == baseOutputDir && this.timestamp == timestamp
      ensures ddsOutputDir == DdsRoot(baseOutputDir, timestamp)
      ensures pngOutputDir == PngRoot(baseOutputDir, timestamp)
      ensures createdDirs == DirsToCreate(mode, ddsOutputDir, pngOutputDir)
    {
      this.files := files;
      this.mode := ModeOf(modeName);
      this.baseOutputDir := baseOutputDir;
      this.timestamp := timestamp;
      var dds := DdsRoot(baseOutputDir, timestamp);
      var png := PngRoot(baseOutputDir, timestamp);
      ddsOutputDir := dds;
      pngOutputDir := png;
      var made := [];
      if ModeOf(modeName) == PngToDds || ModeOf(modeName) == Auto {
        made := made + [dds];
      }
      if ModeOf(modeName) == DdsToPng || ModeOf(modeName) == Auto {
        made := made + [png];
      }
      createdDirs := made;
    }

    function Routes(): Routing
    {
      Routing(mode, ddsOutputDir, pngOutputDir)
    }

    /** `_convert_png_to_dds`, with its early returns. */
    method ConvertPngToDds(b: Backends, input: string) returns (r: Result<Route, string>)
      ensures r == PngToDdsRoute(b, input, OutputPath(Routes(), input, DDS_EXT))
    {
      var output := OutputPath(Routes(), input, DDS_EXT);
      PngToDdsSteps(b, input, output);
      if b.wandAvailable {
        var saved := b.wandConvert(input, output, "dds");
        if saved == Done {
          return Ok(WandSaved);
        }
      }
      if b.pilAvailable {
        var loaded := b.pilOpen(input);
        if loaded.Err? {
          return Err(loaded.error);
        }
        var written := WriteDDS(loaded.value);
        if written.Err? {
          return Err(Message(written.error));
        }
        var saved := b.writeFile(output, written.value);
        if saved.Failed? {
          return Err(saved.message);
        }
        return Ok(CodecWrote(written.value));
      }
      return Err(NO_LIBRARY_PNG_TO_DDS);
    }

    /** `_convert_dds_to_png`, with its early returns. */
    method ConvertDdsToPng(b: Backends, input: string) returns (r: Result<Route, string>)
      ensures r == DdsToPngRoute(b, input, OutputPath(Routes(), input, PNG_EXT))
    {
      var output := OutputPath(Routes(), input, PNG_EXT);
      DdsToPngSteps(b, input, output);
      if b.wandAvailable {
        var saved := b.wandConvert(input, output, "png");
        if saved == Done {
          return Ok(WandSaved);
        }
      }
      if b.pilAvailable {
        var loaded := b.pilOpen(input);
        if loaded.Ok? {
          var saved := b.pilSavePng(loaded.value, output);
          if saved == Done {
            return Ok(PilSaved);
          }
        }
      }
      if b.pilAvailable {
        var file := b.readFile(input);
        if file.Err? {
          return Err(FAILED_DDS + file.error);
        }
        var decoded := ReadDDS(file.value);
        if decoded.Err? {
          return Err(FAILED_DDS + Message(decoded.error));
        }
        var saved := b.pilSavePng(decoded.value, output);
        if saved.Failed? {
          return Err(FAILED_DDS + saved.message);
        }
        return Ok(CodecDecoded(decoded.value));
      }
      return Err(NO_LIBRARY_DDS_TO_PNG);
    }

    /** The `try` block of `run` for one file: dispatch on the mode and the lower-cased extension. */
    method ConvertFile(b: Backends, filepath: string) returns (outcome: Outcome)
      ensures outcome == FileOutcome(Routes(), b, filepath)
    {
      var ext := Lower(Ext(filepath));
      outcome := Done;
      if mode == Auto {
        if ext == PNG_EXT {
          var r := ConvertPngToDds(b, filepath);
          outcome := AsOutcome(r);
        } else if ext == DDS_EXT {
          var r := ConvertDdsToPng(b, filepath);
          outcome := AsOutcome(r);
        } else {
          outcome := Failed("Unsupported format: " + ext);
        }
      } else if mode == PngToDds {
        if ext != PNG_EXT {
          outcome := Failed("Expected PNG file, got " + ext);
        } else {
          var r := ConvertPngToDds(b, filepath);
          outcome := AsOutcome(r);
        }
      } else if mode == DdsToPng {
        if ext != DDS_EXT {
          outcome := Failed("Expected DDS file, got " + ext);
        } else {
          var r := ConvertDdsToPng(b, filepath);
          outcome := AsOutcome(r);
        }
      }
    }

    /** One iteration of `run`: signal file `i`, run its `try` block, then count it or record its failure. */
    method ProcessFile(b: Backends, i: nat, rep: Report) returns (next: Report)
      requires i < |files|
      ensures next == Tallied(rep, i, files[i], FileOutcome(Routes(), b, files[i]))
    {
      var filepath := files[i];
      var success, errors := rep.success, rep.errors;
      var progress := rep.progress + [(i, "Converting: " + Basename(filepath))];
      var outcome := ConvertFile(b, filepath);
      if outcome.Done? {
        success := success + 1;
      } else {
        errors := errors + [(filepath, outcome.message)];
      }
      next := Report(success, errors, progress);
    }

    /**
     * `run`: every file in order, none stopping the batch. The report holds
     * the success count, the `(filepath, message)` pairs and the `progress`
     * signals; with `total` and `outputDir` they are what `finished` carries.
     */
    method Run(b: Backends) returns (report: Report, total: nat, outputDir: string)
      ensures report == Tally(files, Outcomes(Routes(), b, files))
      ensures total == |files| == report.success + |report.errors|
      ensures outputDir == ReportedDir(mode, baseOutputDir, ddsOutputDir, pngOutputDir)
    {
      report := Report(0, [], []);
      var i := 0;
      while i < |files|
        invariant 0 <= i <= |files|
        invariant report == Tally(files[..i], Outcomes(Routes(), b, files[..i]))
      {
        report := ProcessFile(b, i, report);
        RunStep(Routes(), b, files, i);
        i := i + 1;
      }
      assert files[..i] == files;
      TallyCoversFiles(files, Outcomes(Routes(), b, files));
      total := |files|;
      outputDir := if mode == PngToDds then ddsOutputDir else pngOutputDir;
      if mode == Auto {
        outputDir := baseOutputDir;
      }
    }
  }
}

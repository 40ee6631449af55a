/**
  The run configuration: the values parsed from the command line, the
  derived output name and restorer device, and the validation chain that
  decides whether a run starts at all.
*/
module Config {
  import opened Wrappers
  import opened Utils

  /** The command-line values after argparse has parsed them. */
  datatype Arguments = Arguments(
    sourceFaceImageFile: Path,
    inputFile: Path,
    outputFile: Option<Path>,
    restoreFace: bool,
    processEveryFace: bool,
    processVideoInMemory: bool,
    referenceFacePosition: int,
    referenceFrameTime: int,
    similarFaceDistance: real,
    executionProvider: string)

  /** The immutable snapshot of one run's parameters. */
  datatype Configuration = Configuration(
    sourceFaceImageFile: Path,
    inputFile: Path,
    outputFile: Path,
    restoreFace: bool,
    processEveryFace: bool,
    processVideoInMemory: bool,
    referenceFacePosition: int,
    referenceFrameTime: int,
    similarFaceDistance: real,
    executionProvider: string,
    gfpganDevice: string)

  /** The suffix appended to the input's stem when no output file is given. */
  function OutputPostfix(restoreFace: bool): (r: string)
    ensures StartsWith(r, "swapped")
    ensures restoreFace <==> r != "swapped"
    ensures restoreFace ==> r == "swapped-restored"
  {
    if restoreFace then "swapped-restored" else "swapped"
  }

  /** The output path derived from the input path: `<stem>-<postfix><suffix>` beside it. */
  function DefaultOutputFile(inputFile: Path, restoreFace: bool): Path {
    inputFile.(stem := inputFile.stem + "-" + OutputPostfix(restoreFace))
  }

  /** The derived output lies beside the input, keeps its suffix, and is never the input itself. */
  lemma DefaultOutputBesideInput(inputFile: Path, restoreFace: bool)
    ensures DefaultOutputFile(inputFile, restoreFace) != inputFile
    ensures DefaultOutputFile(inputFile, restoreFace).parent == inputFile.parent
    ensures DefaultOutputFile(inputFile, restoreFace).suffix == inputFile.suffix
    ensures StartsWith(DefaultOutputFile(inputFile, restoreFace).stem, inputFile.stem + "-swapped")
  {
    var out := DefaultOutputFile(inputFile, restoreFace);
    assert |out.stem| > |inputFile.stem|;
    var postfix := OutputPostfix(restoreFace);
    assert out.stem == inputFile.stem + "-" + postfix;
    assert postfix[..7] == "swapped";
    assert out.stem[..|inputFile.stem| + 8] == inputFile.stem + "-" + postfix[..7];
  }

  /** The GFPGAN device for an ONNX runtime execution provider. */
  function GfpganDevice(executionProvider: string): (r: string)
    ensures r == "cuda" || r == "mps" || r == "cpu"
    ensures r == "cuda" <==> executionProvider == "CUDAExecutionProvider"
    ensures r == "mps" <==> executionProvider == "CoreMLExecutionProvider"
  {
    if executionProvider == "CUDAExecutionProvider" then "cuda"
    else if executionProvider == "CoreMLExecutionProvider" then "mps"
    else "cpu"
  }

  /** The checks of the validation chain, named by what must hold. */
  datatype Check = SourceExists | SourceIsImage | InputExists | InputIsMedia | OutputAbsent

  /** The position of a check in the chain. */
  function Rank(check: Check): nat {
    match check
    case SourceExists => 0
    case SourceIsImage => 1
    case InputExists => 2
    case InputIsMedia => 3
    case OutputAbsent => 4
  }

  /** Whether one check, taken on its own, passes. */
  predicate Passes(fs: FileSystem, c: Configuration, check: Check) {
    match check
    case SourceExists => fs(c.sourceFaceImageFile).present
    case SourceIsImage => IsImage(fs, Some(c.sourceFaceImageFile))
    case InputExists => fs(c.inputFile).present
    case InputIsMedia => IsImage(fs, Some(c.inputFile)) || IsVideo(fs, Some(c.inputFile))
    case OutputAbsent => !fs(c.outputFile).present
  }

  /** The outcome of validation: valid, or the check whose error message was logged. */
  datatype Validation = Valid | Invalid(failed: Check)

  /**
    The validation chain, in order; the first failing check ends it. The
    configuration is valid exactly when every check passes, and an invalid
    one names the first check that fails.
  */
  function Validate(fs: FileSystem, c: Configuration): (r: Validation)
    ensures r.Valid? <==> forall check :: Passes(fs, c, check)
    ensures r.Invalid? ==> !Passes(fs, c, r.failed)
    ensures r.Invalid? ==> forall check :: Rank(check) < Rank(r.failed) ==> Passes(fs, c, check)
    ensures fs(c.outputFile).present ==> r.Invalid?
  {
    if !fs(c.sourceFaceImageFile).present then assert !Passes(fs, c, SourceExists); Invalid(SourceExists)
    else if !IsImage(fs, Some(c.sourceFaceImageFile)) then assert !Passes(fs, c, SourceIsImage); Invalid(SourceIsImage)
    else if !fs(c.inputFile).present then assert !Passes(fs, c, InputExists); Invalid(InputExists)
    else if !IsImage(fs, Some(c.inputFile)) && !IsVideo(fs, Some(c.inputFile)) then assert !Passes(fs, c, InputIsMedia); Invalid(InputIsMedia)
    else if fs(c.outputFile).present then assert !Passes(fs, c, OutputAbsent); Invalid(OutputAbsent)
    else Valid
  }

  /** What `parse_command_line` leaves behind: the configuration and its verdict. */
  datatype Parsed = Parsed(configuration: Configuration, valid: bool)

  /** The configuration built from the arguments for a given output path. */
  function ConfigurationFrom(args: Arguments, outputFile: Path): Configuration {
    Configuration(
      args.sourceFaceImageFile, args.inputFile, outputFile,
      args.restoreFace, args.processEveryFace, args.processVideoInMemory,
      args.referenceFacePosition, args.referenceFrameTime, args.similarFaceDistance,
      args.executionProvider, GfpganDevice(args.executionProvider))
  }

  /**
    `parse_command_line` as written: when no output file is given, the
    default name refers to an undefined variable and raises NameError.
  */
  function ParseCommandLineAsWritten(args: Arguments, fs: FileSystem): (r: Result<Parsed>)
    ensures r.Raised? <==> args.outputFile.None?
    ensures r.Raised? ==> r.error == UndefinedName
    ensures r.Ok? ==> r.value.configuration.outputFile == args.outputFile.value
    ensures r.Ok? ==> (r.value.valid <==> Validate(fs, r.value.configuration).Valid?)
  {
    match args.outputFile
    case None => Raised(UndefinedName)
    case Some(outputFile) =>
      var c := ConfigurationFrom(args, outputFile);
      Ok(Parsed(c, Validate(fs, c).Valid?))
  }

  /**
    `parse_command_line` with the default output name derived from the
    input's own stem. The verdict is exactly the validation's, and where
    the as-written version does not raise, both agree.
  */
  function ParseCommandLine(args: Arguments, fs: FileSystem): (r: Parsed)
    ensures r.valid <==> Validate(fs, r.configuration).Valid?
    ensures r.configuration.outputFile
         == if args.outputFile.Some? then args.outputFile.value
            else DefaultOutputFile(args.inputFile, args.restoreFace)
    ensures r.configuration.gfpganDevice == GfpganDevice(args.executionProvider)
    ensures r.configuration.sourceFaceImageFile == args.sourceFaceImageFile
    ensures r.configuration.inputFile == args.inputFile
    ensures r.configuration.processVideoInMemory == args.processVideoInMemory
    ensures r.configuration.referenceFacePosition == args.referenceFacePosition
    ensures r.configuration.referenceFrameTime == args.referenceFrameTime
    ensures r.configuration.similarFaceDistance == args.similarFaceDistance
    ensures r.configuration.executionProvider == args.executionProvider
    ensures r.configuration.restoreFace == args.restoreFace
    ensures r.configuration.processEveryFace == args.processEveryFace
    ensures args.outputFile.Some? ==> ParseCommandLineAsWritten(args, fs) == Ok(r)
  {
    var outputFile :=
      if args.outputFile.Some? then args.outputFile.value
      else DefaultOutputFile(args.inputFile, args.restoreFace);
    var c := ConfigurationFrom(args, outputFile);
    Parsed(c, Validate(fs, c).Valid?)
  }
}

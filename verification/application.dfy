/**
  The application: parse and validate the configuration, choose the face
  processor and the file processor, and run the latter.
*/
module Application {
  import opened Wrappers
  import opened Types
  import opened Utils
  import opened Config
  import opened FaceProcessor
  import opened VideoProcessor
  import opened ImageProcessor

  /** `__create_face_processor`: every-face exactly when `process_every_face` is set. */
  function CreateFaceProcessor(c: Configuration): (mode: Mode)
    ensures mode == EveryFace <==> c.processEveryFace
    ensures mode == OneFace <==> !c.processEveryFace
  {
    if c.processEveryFace then EveryFace else OneFace
  }

  datatype FileKind = ImageFile | VideoFile

  /**
    `__create_file_processor`: an image processor for an image input (images
    are checked first), a video processor for a video input, and none for
    anything else.
  */
  function CreateFileProcessor(fs: FileSystem, c: Configuration): (r: Option<FileKind>)
    ensures r == Some(ImageFile) <==> IsImage(fs, Some(c.inputFile))
    ensures r == Some(VideoFile) <==> !IsImage(fs, Some(c.inputFile)) && IsVideo(fs, Some(c.inputFile))
    ensures r.None? <==> !IsImage(fs, Some(c.inputFile)) && !IsVideo(fs, Some(c.inputFile))
  {
    if IsImage(fs, Some(c.inputFile)) then Some(ImageFile)
    else if IsVideo(fs, Some(c.inputFile)) then Some(VideoFile)
    else None
  }

  /**
    The decoded content of the files a run reads: the source face image,
    the input as an image, the input's frames as a video, and the frame
    read at the reference time (missing when that read fails).
  */
  datatype Media = Media(sourceImage: Frame, inputImage: Frame, video: seq<Frame>, frameAtTime: Option<Frame>)

  /** What `Application.run` did. */
  datatype AppRun =
    | NotValidated                          // the configuration was rejected; nothing ran
    | NoFileProcessor                       // the input is neither an image nor a video
    | RanImage(image: Result<ImageOutcome>)
    | RanVideo(video: VideoRun)

  /**
    `Application.run`: nothing is processed unless the command line parses
    to a valid configuration; then the input's kind decides the run.
  */
  function Run(e: Engines, args: Arguments, fs: FileSystem, media: Media): (r: AppRun)
    ensures r == NotValidated <==> !ParseCommandLine(args, fs).valid
    ensures r.RanImage? ==> IsImage(fs, Some(args.inputFile))
    ensures r.RanVideo? ==> IsVideo(fs, Some(args.inputFile)) && !IsImage(fs, Some(args.inputFile))
    ensures r.RanImage? ==> var c := ParseCommandLine(args, fs).configuration;
      r.image == RunImage(e, c, CreateFaceProcessor(c), media.sourceImage, media.inputImage)
    ensures r.RanVideo? ==> var c := ParseCommandLine(args, fs).configuration;
      r.video == RunVideo(e, c, CreateFaceProcessor(c), media.sourceImage, media.frameAtTime, media.video)
  {
    var parsed := ParseCommandLine(args, fs);
    if !parsed.valid then NotValidated
    else
      var c := parsed.configuration;
      var mode := CreateFaceProcessor(c);
      match CreateFileProcessor(fs, c)
      case None => NoFileProcessor
      case Some(ImageFile) => RanImage(RunImage(e, c, mode, media.sourceImage, media.inputImage))
      case Some(VideoFile) => RanVideo(RunVideo(e, c, mode, media.sourceImage, media.frameAtTime, media.video))
  }

  /**
    Validation already demands an image or video input, so a validated run
    always has a file processor: the `None` branch of the dispatch is dead.
  */
  lemma ValidatedRunHasProcessor(e: Engines, args: Arguments, fs: FileSystem, media: Media)
    requires ParseCommandLine(args, fs).valid
    ensures Run(e, args, fs, media).RanImage? || Run(e, args, fs, media).RanVideo?
  {
    assert Passes(fs, ParseCommandLine(args, fs).configuration, InputIsMedia);
  }
}

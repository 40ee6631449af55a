# deepdeepdopdop face-selection and frame-orchestration model

This project is a Dafny model of the orchestration core of deepdeepdopdop, a face-swap tool.
The tool takes a source face image and an input image or video. It finds the source face, picks a
reference face in the input (at a fixed video time, or again in every frame), and in each frame
swaps the source face onto the face matching the reference, or onto every face. It then restores
the swapped region with GFPGAN.

The three inference engines are treated as uninterpreted functions, and so is the embedding
distance. They are the fields of `Types.Engines`: the insightface detector, the inswapper model
and the GFPGAN enhancer. Everything around them is written as pure functions over immutable
`seq<Frame>` and `seq<Face>`:

- `FaceAnalyser`: the stable sort of detected faces by left edge; the positional lookup on the
  raw detector order; the leftmost-face rule for negative positions; and the first-under-threshold
  similar-face search.
- `FaceRestorer`: truncation of the bounding box to integers, Python slice normalisation, the
  empty-crop skip, and the paste back over exactly the crop rectangle.
- `FaceProcessor`: the per-frame transform (swap, then restore), the single-face and every-face
  processors, and the Target-Face Index. The index is a list of `(frame position, faces)` entries
  built by the analyze pass and then consumed by the swap and restore passes.
- `VideoProcessor`: the streaming loop, the three-pass in-memory path, and `run` with its early
  exits and the audio remux.
- `ImageProcessor`, `Application`, `Config`, `Utils`: the image run, processor dispatch,
  command-line validation, the output-name postfix, the GFPGAN device mapping, and media-type tests.

The detector may raise `ValueError`. `find_faces` catches it, but `__find_face` does not, so in the
model that exception (`Wrappers.Result.Raised`) escapes the reference and source lookups and ends
a run. A streaming run that raises has already written the frames before the failing one.

The model follows the code as written, including these points where it departs from what the tool's options suggest:

- A non-negative reference position indexes the detector's unsorted order.
- `process_frame` restores whether or not `restore_face` is set. Only the in-memory video path
  honours the flag.
- The every-face processor is still gated on finding a reference face.
- "Non-empty image" is numpy's `.any()`, which means "has a non-black pixel".
- Detector errors inside `__find_face` are not treated as "no faces".

## Model

| member | source | states |
|---|---|---|
| Utils.IsImage | deepdeepdopdop/utils.py:8-12 | true only for an existing regular file whose guessed type starts with "image/"; a None path, a missing path or a non-file is never an image |
| Utils.IsVideo | deepdeepdopdop/utils.py:14-18 | true only for an existing regular file whose guessed type starts with "video/", so never for a path that is an image |
| Config.OutputPostfix | deepdeepdopdop/configuration.py:87-88 | "swapped" without restore_face and exactly "swapped-restored" with it |
| Config.DefaultOutputBesideInput | deepdeepdopdop/configuration.py:87-89 | the derived output keeps the input's directory and suffix, its stem extends the input's with "-swapped", and it is never the input path |
| Config.GfpganDevice | deepdeepdopdop/configuration.py:91-95 | CUDA maps to "cuda", CoreML to "mps", every other provider to "cpu" |
| Config.Validate | deepdeepdopdop/configuration.py:99-123 | valid iff all five checks pass; an invalid result names a failing check all of whose predecessors passed; an existing output always fails |
| Config.ParseCommandLineAsWritten | deepdeepdopdop/configuration.py:74-97 | raises NameError exactly when no output file is given; otherwise the verdict is exactly the validation's |
| Config.ParseCommandLine | deepdeepdopdop/configuration.py:74-97 | the verdict is exactly the validation's, every other field is taken from its argument, the output defaults to the derived name, the device follows the provider, and it agrees with the as-written version wherever that does not raise |
| FaceAnalyser.SortByLeft | deepdeepdopdop/faceanalyser.py:27 | the result is ordered by left edge, is a permutation of the input, and keeps input order among equal edges (stable) |
| FaceAnalyser.StableSortUnique | deepdeepdopdop/faceanalyser.py:27 | any ordered, order-preserving arrangement of the faces equals SortByLeft's, so it is what Python's sorted returns |
| FaceAnalyser.LeftmostIndex | deepdeepdopdop/faceanalyser.py:35 | the index of a face of minimal left edge with no earlier face at that edge (Python's min) |
| FaceAnalyser.FindFaces | deepdeepdopdop/faceanalyser.py:24-29 | None exactly when the detector raised; otherwise a sorted permutation of the detector's faces |
| FaceAnalyser.FindFace | deepdeepdopdop/faceanalyser.py:31-38 | raises exactly when the detector raises; None for no faces or an out-of-range position; position p >= 0 picks the p-th face in raw detector order; any result is a detected face |
| FaceAnalyser.NegativePositionIsFirstSorted | deepdeepdopdop/faceanalyser.py:24-38 | a negative position yields the first face of find_faces' sorted list |
| FaceAnalyser.PositionIndexesDetectorOrder | deepdeepdopdop/faceanalyser.py:31-38 | position 0 can pick a face other than the first of the sorted list |
| FaceAnalyser.FirstSimilar | deepdeepdopdop/faceanalyser.py:88-92 | returns the first index whose face is similar (both embeddings present, distance strictly below the threshold), or none if no face from there on qualifies |
| FaceAnalyser.FindSimilarFace | deepdeepdopdop/faceanalyser.py:85-93 | the result is the first similar face of the sorted list and a detected face; None iff detection failed or no face qualifies |
| FaceAnalyser.FirstMatchIsNotClosest | deepdeepdopdop/faceanalyser.py:85-93 | with two qualifying faces, the leftmost is returned although the other is closer |
| FaceAnalyser.FindSourceFaceInImage | deepdeepdopdop/faceanalyser.py:40-52 | no face exactly when the image is blank or the detector finds zero faces; a detector error escapes from a non-blank image; otherwise the face at raw position 0 |
| FaceAnalyser.FindReferenceFace | deepdeepdopdop/faceanalyser.py:54-67 | raises exactly when the detector raises; no face exactly when there are none or the configured position is past the end; a position p >= 0 in range gives the p-th face in detector order; a negative position gives the head of find_faces' sorted list |
| FaceAnalyser.FindReferenceFaceInVideo | deepdeepdopdop/faceanalyser.py:69-83 | no frame at the reference time gives no face; a frame at that time gives exactly the configured-position lookup in it, so a found face was detected there |
| FaceRestorer.Truncate | deepdeepdopdop/facerestorer.py:22 | int() rounds toward zero: floor for non-negative values, ceiling for negative ones |
| FaceRestorer.SliceBound | deepdeepdopdop/facerestorer.py:24 | Python slice-bound normalisation: in-range kept, negatives count from the end, clamped to [0, n] |
| FaceRestorer.CropRect | deepdeepdopdop/facerestorer.py:22-24 | the crop rectangle lies within the frame and its edges are the normalised truncated box coordinates; it is empty in a direction exactly when the normalised far edge is not past the near edge |
| FaceRestorer.Crop | deepdeepdopdop/facerestorer.py:24 | the crop has the rectangle's shape and holds the frame's pixels at the offset positions |
| FaceRestorer.Paste | deepdeepdopdop/facerestorer.py:27 | the frame keeps its shape and its pixels outside the rectangle; inside it every pixel the restored face covers is taken from it |
| FaceRestorer.Restore | deepdeepdopdop/facerestorer.py:21-29 | the shape is kept; an empty crop leaves the frame unchanged; pixels outside the crop never change; inside it every pixel the enhanced crop covers is taken from it |
| FaceProcessor.ProcessFrame | deepdeepdopdop/faceprocessor.py:21-24 | outside the target's crop rectangle the result is the swapped frame; inside a non-empty crop every pixel the enhancer's output covers is taken from the enhancer run on the swapped frame's crop, so the restore always runs |
| FaceProcessor.Process | deepdeepdopdop/faceprocessor.py:26-30 | single-face: unchanged without a similar face, else process_frame on that face; every-face: unchanged when detection failed, else process_frame folded over find_faces' left-to-right list |
| FaceProcessor.ApplyFacesLast | deepdeepdopdop/faceprocessor.py:85-86 | the fold applies the faces in list order: the last face is processed last, on the result of all the earlier ones |
| FaceProcessor.EveryFaceIgnoresReference | deepdeepdopdop/faceprocessor.py:82-87 | the every-face result is the same for any reference face |
| FaceProcessor.NoFacesNoChange | deepdeepdopdop/faceprocessor.py:26-30 | a frame without detected faces is returned unchanged by both processors |
| FaceProcessor.ProcessIgnoresRestoreFlag | deepdeepdopdop/faceprocessor.py:21-24 | flipping restore_face never changes what process returns |
| FaceProcessor.ReferenceForFrame | deepdeepdopdop/faceprocessor.py:38-39 | with a reference time (>= 0) the fixed reference is used unchanged; without one it is the configured-position lookup in this frame, which raises exactly when its detector does |
| FaceProcessor.FrameTargets | deepdeepdopdop/faceprocessor.py:38-44 | raises exactly when the frame's reference lookup raises; no reference records nothing; with one, one-face mode records the similar face when there is one and every-face mode records the whole detected list when it is non-empty, and nothing otherwise |
| FaceProcessor.FrameTargetsShape | deepdeepdopdop/faceprocessor.py:41-101 | targets are recorded only with a reference face; they are detected faces, exactly one (the similar face) for the single-face processor (lines 41-44) and the whole find_faces list for the every-face one (lines 95-101) |
| FaceProcessor.IndexFrom | deepdeepdopdop/faceprocessor.py:32-50 | the analyze loop raises iff some frame's lookup raises, and every recorded position lies between the starting frame and the end of the list |
| FaceProcessor.IndexFromIncreasing | deepdeepdopdop/faceprocessor.py:37-46 | the loop records frame positions in strictly increasing order |
| FaceProcessor.IndexFromRecordsTargets | deepdeepdopdop/faceprocessor.py:37-46 | every entry holds its frame's targets, and every frame from the start on that has targets gets an entry |
| FaceProcessor.Analyze | deepdeepdopdop/faceprocessor.py:89-107 | the index names frame i exactly when frame i has targets, with strictly increasing in-range positions |
| FaceProcessor.ApplyPass | deepdeepdopdop/faceprocessor.py:52-63 | the pass keeps the list's length and leaves every frame the index does not name unchanged |
| FaceProcessor.ApplyPassAtEntry | deepdeepdopdop/faceprocessor.py:54-61 | for a strictly increasing index, the frame at an entry's position is that entry's faces applied in recorded order to the original frame |
| FaceProcessor.SwapPass | deepdeepdopdop/faceprocessor.py:52-63 | the swap pass keeps the length, leaves unindexed frames unchanged, and turns each indexed frame into its original with every recorded face swapped in recorded order |
| FaceProcessor.RestorePass | deepdeepdopdop/faceprocessor.py:65-76 | the restore pass keeps the length, leaves unindexed frames unchanged, and turns each indexed frame into its original restored around every recorded face in recorded order |
| VideoProcessor.StreamFrame | deepdeepdopdop/videoprocessor.py:22-29 | raises exactly when the reference lookup raises; a frame without a reference face is written unchanged, and one with a reference face is written as process's result for that reference |
| VideoProcessor.WriteUntilRaised | deepdeepdopdop/videoprocessor.py:22-31 | frames are written in order while iterations succeed; the first exception ends the loop with exactly the frames before it written |
| VideoProcessor.Stream | deepdeepdopdop/videoprocessor.py:19-31 | written frame i is the per-frame result of input frame i; without an exception, exactly one frame is written per input frame; an exception stops at the first frame whose lookup raised |
| VideoProcessor.NoFacesStreamedUnchanged | deepdeepdopdop/videoprocessor.py:21-29 | a frame with zero detected faces is written unchanged |
| VideoProcessor.FixedReferenceStreamsEveryFrame | deepdeepdopdop/videoprocessor.py:21-29 | with a reference time set, streaming never raises and writes every frame |
| VideoProcessor.StreamingIgnoresRestoreFlag | deepdeepdopdop/videoprocessor.py:25-27 | the streamed output is the same whether or not restore_face is set |
| VideoProcessor.ProcessInMemory | deepdeepdopdop/videoprocessor.py:33-43 | raises iff analyze raises; otherwise the same number of frames, and frames without targets unchanged |
| VideoProcessor.InMemoryIsFrameLocal | deepdeepdopdop/videoprocessor.py:33-43 | each output frame is all swaps, then all restores when restore_face is set, of its own recorded targets on its own input frame |
| VideoProcessor.StreamingMatchesInMemory | deepdeepdopdop/videoprocessor.py:19-43 | for the single-face processor with restore_face set, both paths raise together and otherwise write identical frame lists |
| VideoProcessor.RunVideo | deepdeepdopdop/videoprocessor.py:45-73 | files are opened iff the source face and, when a time is set, the fixed reference are found; an error from either lookup crashes the run before any file is opened, and a missing source face or a missing fixed reference returns before any file is opened; the path follows process_video_in_memory; the streaming path writes exactly the frames the loop wrote before any exception, and the in-memory path writes the passes' output exactly when analyze does not raise; the remux runs iff the path completed |
| VideoProcessor.MissingFixedReferenceAborts | deepdeepdopdop/videoprocessor.py:52-56 | with a reference time whose frame has no reference face, nothing is opened, written or remuxed, and the run returns normally unless the source lookup itself raised |
| ImageProcessor.RunImage | deepdeepdopdop/imageprocessor.py:12-25 | an image is written iff the source face is found, the input is not blank and the reference face is found, and it is the processed input; an error from the reference lookup escapes, a blank input gives the blank outcome and a missing reference face its own outcome |
| ImageProcessor.SourceLookupComesFirst | deepdeepdopdop/imageprocessor.py:15-17 | when no source face is found, the input image makes no difference to the run |
| ImageProcessor.ImageIgnoresRestoreFlag | deepdeepdopdop/imageprocessor.py:22-25 | the image run's outcome does not depend on restore_face |
| Application.CreateFaceProcessor | deepdeepdopdop/application.py:27-28 | every-face iff process_every_face |
| Application.CreateFileProcessor | deepdeepdopdop/application.py:30-36 | image processor iff the input is an image; video processor iff it is a video and not an image; none iff neither |
| Application.Run | deepdeepdopdop/application.py:38-46 | nothing runs iff the command line does not validate; an image input runs the image path and a video input the video path, with the chosen face processor |
| Application.ValidatedRunHasProcessor | deepdeepdopdop/application.py:30-42 | after validation a file processor always exists, so the no-processor branch is dead |

## Findings

| source | as written | input that shows it | evidently intended | confidence | as-written member | corrected member |
|---|---|---|---|---|---|---|
| deepdeepdopdop/configuration.py:89 | the default output name reads `video_input_file_path.stem`, a name defined nowhere in the module, so NameError is raised | any command line without `--output-file` | `self.input_file.with_stem(f'{self.input_file.stem}-{postfix}')` | high; not executed | Config.ParseCommandLineAsWritten | Config.ParseCommandLine |

`Application.Run` uses the corrected `Config.ParseCommandLine`. `Config.DefaultOutputBesideInput` proves that the derived output sits beside the input and never names the input itself.

## Left out

- Container and image I/O (videoio.py, imageio.py): the decoded frames are inputs (`Application.Media`), and the written frames are the run's result. Codecs, fps, frame counts and dimensions are not modelled.
- VideoProcessor.RunVideo: the reader and writer always count as opened. Their `__bool_` method is misspelled, so the `if video_reader:` and `if video_writer:` guards are always true. A container that fails to open is not modelled.
- VideoProcessor.RunVideo: the remux is a flag. `AudioVideoMixer.mix` copies packets, which is container I/O.
- VideoProcessor.RunVideo: models the fixed-time lookup as intended, not as written. As written, `elf.` at videoprocessor.py:54 and the unimported `imageio` at faceanalyser.py:75 raise NameError. `read_at` can never succeed, because `set_position` returns nothing. The frame at the reference time is therefore an input that may be missing.
- FaceAnalyser.FindReferenceFaceInVideo: the debug PNG written at faceanalyser.py:75 is not modelled, and neither is the `if frame:` test on a numpy array.
- FaceAnalyser.FindSourceFaceInImage: an undecodable source image is not modelled. Validation only checks that the file exists, is a regular file and has an image type guessed from its name, so a corrupt `x.png` passes it. `imread` then returns None, and `read_image` crashes on `None.any()` (imageio.py:12).
- ImageProcessor.RunImage: the same unmodelled crash applies to an undecodable input image read at imageprocessor.py:17.
- FaceRestorer.Restore: when the enhancer's output differs from the crop's shape, the model keeps the original pixels. numpy would raise or broadcast instead. GFPGAN at upscale 1 returns the crop's own shape.
- FaceProcessor.ApplyPass: index positions are natural numbers, so Python's negative list indices are not representable. Analyze never produces them.
- Frames are values, not buffers mutated in place. Every caller replaces its frame with the returned one, so the aliasing is not observable.
- Embedding arithmetic: the squared distance is the uninterpreted `Engines.distance` over reals. float32 rounding and NaN are not modelled.
- Face truthiness: an insightface face is a non-empty dict and always truthy, so a found face is simply `Some`.
- Model download, argparse parsing and its defaults, onnxruntime provider discovery, logging, tqdm progress, and the engine constructors are OS, network or instrumentation code. `Config.Arguments` holds the already-parsed values.
- Paths are modelled as (parent, stem, suffix) triples. What the file system reports about them is the abstract `Utils.FileSystem`.
- fileprocessor.py is an empty base class. types.py is not part of this model; `Types` defines the frame and face values in its place.
- Re-running a pass on the same index and frames gives the same output because the model is deterministic by construction. No separate lemma states this.

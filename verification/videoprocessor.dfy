/**
  The video run: source and fixed-reference lookups with their early
  exits, then either the streaming pass (one frame in, one frame out) or
  the in-memory passes (analyze, swap, optional restore, write all), and
  the audio remux after a completed pass.
*/
module VideoProcessor {
  import opened Wrappers
  import opened Types
  import opened Config
  import opened FaceAnalyser
  import opened FaceRestorer
  import opened FaceProcessor

  /**
    One iteration of the streaming loop: the frame to write, or the
    exception the reference lookup raised.
  */
  function StreamFrame(e: Engines, c: Configuration, mode: Mode, source: Face, fixed: Option<Face>, frame: Frame): (r: Result<Frame>)
    ensures r.Raised? <==> ReferenceForFrame(e, c, fixed, frame).Raised?
    ensures ReferenceForFrame(e, c, fixed, frame) == Ok(None) ==> r == Ok(frame)
    ensures ReferenceForFrame(e, c, fixed, frame).Ok? && ReferenceForFrame(e, c, fixed, frame).value.Some? ==>
      r == Ok(Process(e, c, mode, source, ReferenceForFrame(e, c, fixed, frame).value.value, frame))
  {
    var reference :- ReferenceForFrame(e, c, fixed, frame);
    if reference.Some? then Ok(Process(e, c, mode, source, reference.value, frame)) else Ok(frame)
  }

  /** The frames the streaming loop handed to the writer, and the exception that ended it early, if any. */
  datatype Streamed = Streamed(written: seq<Frame>, error: Option<Error>)

  /**
    The writer's side of the streaming loop, given each iteration's
    outcome: frames are written in order until the first exception, which
    ends the loop.
  */
  function WriteUntilRaised(outcomes: seq<Result<Frame>>): (r: Streamed)
    ensures |r.written| <= |outcomes|
    ensures forall i :: 0 <= i < |r.written| ==> outcomes[i] == Ok(r.written[i])
    ensures r.error.None? ==> |r.written| == |outcomes|
    ensures r.error.Some? ==> (|r.written| < |outcomes| && outcomes[|r.written|] == Raised(r.error.value))
    decreases |outcomes|
  {
    if outcomes == [] then Streamed([], None)
    else match outcomes[0]
      case Raised(error) => Streamed([], Some(error))
      case Ok(output) =>
        var rest := WriteUntilRaised(outcomes[1..]);
        var written := [output] + rest.written;
        assert forall i :: 0 < i < |written| ==> written[i] == rest.written[i - 1] && outcomes[i] == outcomes[1..][i - 1];
        Streamed(written, rest.error)
  }

  /** The outcome of every iteration of the streaming loop, frame by frame. */
  function StreamOutcomes(e: Engines, c: Configuration, mode: Mode, source: Face, fixed: Option<Face>, frames: seq<Frame>): (rs: seq<Result<Frame>>)
    ensures |rs| == |frames|
    ensures forall i :: 0 <= i < |frames| ==> rs[i] == StreamFrame(e, c, mode, source, fixed, frames[i])
  {
    seq(|frames|, i requires 0 <= i < |frames| => StreamFrame(e, c, mode, source, fixed, frames[i]))
  }

  /**
    `__process`: one written frame per input frame, in input order, each
    the per-frame result of its input; an exception stops the loop after
    the frames before it were written.
  */
  function Stream(e: Engines, c: Configuration, mode: Mode, source: Face, fixed: Option<Face>, frames: seq<Frame>): (r: Streamed)
    ensures |r.written| <= |frames|
    ensures forall i :: 0 <= i < |r.written| ==> StreamFrame(e, c, mode, source, fixed, frames[i]) == Ok(r.written[i])
    ensures r.error.None? ==> |r.written| == |frames|
    ensures r.error.Some? ==>
      (|r.written| < |frames| && StreamFrame(e, c, mode, source, fixed, frames[|r.written|]) == Raised(r.error.value))
  {
    WriteUntilRaised(StreamOutcomes(e, c, mode, source, fixed, frames))
  }

  /** A frame in which the detector finds no face is written as it was read. */
  lemma NoFacesStreamedUnchanged(e: Engines, c: Configuration, mode: Mode, source: Face, fixed: Option<Face>, frame: Frame)
    requires e.detect(frame) == Detected([])
    ensures StreamFrame(e, c, mode, source, fixed, frame) == Ok(frame)
  {
    if c.referenceFrameTime >= 0 && fixed.Some? {
      NoFacesNoChange(e, c, mode, source, fixed.value, frame);
    }
  }

  /** With a fixed reference time nothing can raise: every frame is written. */
  lemma FixedReferenceStreamsEveryFrame(e: Engines, c: Configuration, mode: Mode, source: Face, fixed: Option<Face>, frames: seq<Frame>)
    requires c.referenceFrameTime >= 0
    ensures Stream(e, c, mode, source, fixed, frames).error.None?
    ensures |Stream(e, c, mode, source, fixed, frames).written| == |frames|
  {
  }

  /** The streaming output does not depend on `restore_face`. */
  lemma StreamingIgnoresRestoreFlag(e: Engines, c: Configuration, mode: Mode, source: Face, fixed: Option<Face>, frames: seq<Frame>)
    ensures Stream(e, c, mode, source, fixed, frames)
         == Stream(e, c.(restoreFace := !c.restoreFace), mode, source, fixed, frames)
  {
    var c' := c.(restoreFace := !c.restoreFace);
    forall i | 0 <= i < |frames|
      ensures StreamFrame(e, c, mode, source, fixed, frames[i]) == StreamFrame(e, c', mode, source, fixed, frames[i])
    {
      var reference := ReferenceForFrame(e, c, fixed, frames[i]);
      assert ReferenceForFrame(e, c', fixed, frames[i]) == reference;
      if reference.Ok? && reference.value.Some? {
        ProcessIgnoresRestoreFlag(e, c, mode, source, reference.value.value, frames[i]);
      }
    }
    assert StreamOutcomes(e, c, mode, source, fixed, frames) == StreamOutcomes(e, c', mode, source, fixed, frames);
  }

  /**
    What the in-memory passes make of one frame with the given recorded
    targets: every swap, then every restore if `restore_face` is set.
  */
  function InMemoryFrame(e: Engines, c: Configuration, source: Face, targets: Option<seq<Face>>, frame: Frame): Frame {
    match targets
    case None => frame
    case Some(faces) =>
      var swapped := ApplyFaces(SwapStep(e, source), faces, frame);
      if c.restoreFace then ApplyFaces(RestoreStep(e), faces, swapped) else swapped
  }

  /**
    `__process_in_memory`: analyze, swap, restore only if `restore_face`,
    then write the whole list. The list keeps its length, frames without
    targets are unchanged, and it raises exactly when analyze does.
  */
  function ProcessInMemory(e: Engines, c: Configuration, mode: Mode, source: Face, fixed: Option<Face>, frames: seq<Frame>): (r: Result<seq<Frame>>)
    ensures r.Ok? <==> forall i :: 0 <= i < |frames| ==> FrameTargets(e, c, mode, fixed, frames[i]).Ok?
    ensures r.Ok? ==> |r.value| == |frames|
    ensures r.Ok? ==> forall i :: 0 <= i < |frames| && FrameTargets(e, c, mode, fixed, frames[i]) == Ok(None) ==>
      r.value[i] == frames[i]
  {
    var index :- Analyze(e, c, mode, fixed, frames);
    var swapped := SwapPass(e, frames, index, source);
    Ok(if c.restoreFace then RestorePass(e, swapped, index) else swapped)
  }

  /**
    The three passes act frame by frame: each output frame is the in-memory
    transform of its own input frame with its own recorded targets.
  */
  lemma InMemoryIsFrameLocal(e: Engines, c: Configuration, mode: Mode, source: Face, fixed: Option<Face>, frames: seq<Frame>)
    requires ProcessInMemory(e, c, mode, source, fixed, frames).Ok?
    ensures forall i :: 0 <= i < |frames| ==>
      ProcessInMemory(e, c, mode, source, fixed, frames).value[i]
        == InMemoryFrame(e, c, source, FrameTargets(e, c, mode, fixed, frames[i]).value, frames[i])
  {
    var index := Analyze(e, c, mode, fixed, frames).value;
    var swapped := SwapPass(e, frames, index, source);
    var out := ProcessInMemory(e, c, mode, source, fixed, frames).value;
    forall i | 0 <= i < |frames|
      ensures out[i] == InMemoryFrame(e, c, source, FrameTargets(e, c, mode, fixed, frames[i]).value, frames[i])
    {
      var targets := FrameTargets(e, c, mode, fixed, frames[i]).value;
      if targets.Some? {
        var k := IndexWitness(index, i);
        ApplyPassAtEntry(SwapStep(e, source), frames, index, k);
        ApplyPassAtEntry(RestoreStep(e), swapped, index, k);
      }
    }
  }

  lemma ApplyOneFace(step: (Face, Frame) -> Frame, face: Face, frame: Frame)
    ensures ApplyFaces(step, [face], frame) == step(face, frame)
  {
    assert [face][1..] == [];
  }

  lemma OneFaceFrameAgrees(e: Engines, c: Configuration, source: Face, fixed: Option<Face>, frame: Frame)
    requires c.restoreFace
    requires FrameTargets(e, c, OneFace, fixed, frame).Ok?
    ensures StreamFrame(e, c, OneFace, source, fixed, frame)
         == Ok(InMemoryFrame(e, c, source, FrameTargets(e, c, OneFace, fixed, frame).value, frame))
  {
    var targets := FrameTargets(e, c, OneFace, fixed, frame).value;
    if targets.Some? {
      FrameTargetsShape(e, c, OneFace, fixed, frame);
      var t := targets.value[0];
      assert targets.value[1..] == [];
      ApplyOneFace(SwapStep(e, source), t, frame);
      var swapped := SwapStep(e, source)(t, frame);
      assert swapped == e.swap(source, t, frame);
      ApplyOneFace(RestoreStep(e), t, swapped);
      assert RestoreStep(e)(t, swapped) == Restore(e, t, swapped);
    }
  }

  /**
    For the single-face processor with `restore_face` set, the streaming
    and the in-memory paths write the same frames, and raise together.
  */
  lemma StreamingMatchesInMemory(e: Engines, c: Configuration, source: Face, fixed: Option<Face>, frames: seq<Frame>)
    requires c.restoreFace
    ensures ProcessInMemory(e, c, OneFace, source, fixed, frames).Ok?
        <==> Stream(e, c, OneFace, source, fixed, frames).error.None?
    ensures ProcessInMemory(e, c, OneFace, source, fixed, frames).Ok? ==>
      ProcessInMemory(e, c, OneFace, source, fixed, frames).value == Stream(e, c, OneFace, source, fixed, frames).written
  {
    var m := ProcessInMemory(e, c, OneFace, source, fixed, frames);
    var s := Stream(e, c, OneFace, source, fixed, frames);
    if s.error.Some? {
      assert !FrameTargets(e, c, OneFace, fixed, frames[|s.written|]).Ok?;
    }
    if m.Ok? {
      InMemoryIsFrameLocal(e, c, OneFace, source, fixed, frames);
      forall i | 0 <= i < |frames|
        ensures StreamFrame(e, c, OneFace, source, fixed, frames[i]) == Ok(m.value[i])
      {
        OneFaceFrameAgrees(e, c, source, fixed, frames[i]);
      }
      assert s.error.None?;
    }
  }

  datatype VideoPath = Streaming | InMemory

  /** How `run` ended: by returning, or by an exception escaping it. */
  datatype Status = Returned | Crashed(error: Error)

  /**
    The observable effects of one video run: whether the reader and writer
    were opened, which path ran, the frames handed to the writer, and
    whether the audio remux ran.
  */
  datatype VideoRun = VideoRun(status: Status, filesOpened: bool, path: Option<VideoPath>, written: seq<Frame>, remuxed: bool)

  /**
    `VideoProcessor.run`. The source face is looked up first; without it the
    run returns before opening anything. With a reference time configured,
    the fixed reference face is looked up next, and without it the run
    returns too. Otherwise the configured path runs, and the remux follows
    only when that path completed.
  */
  function RunVideo(e: Engines, c: Configuration, mode: Mode, sourceImage: Frame, frameAtTime: Option<Frame>, video: seq<Frame>): (r: VideoRun)
    ensures !r.filesOpened ==> r.written == [] && r.path.None? && !r.remuxed
    ensures r.filesOpened <==>
      && FindSourceFaceInImage(e, sourceImage).Ok? && FindSourceFaceInImage(e, sourceImage).value.Some?
      && (c.referenceFrameTime >= 0 ==> FindReferenceFaceInVideo(e, c, frameAtTime).Ok?
                                        && FindReferenceFaceInVideo(e, c, frameAtTime).value.Some?)
    ensures r.filesOpened ==> r.path == Some(if c.processVideoInMemory then InMemory else Streaming)
    ensures r.remuxed <==> r.filesOpened && r.status == Returned
    ensures r.filesOpened && r.status == Returned ==> |r.written| == |video|
    ensures r.path == Some(InMemory) && r.status.Crashed? ==> r.written == []
    ensures FindSourceFaceInImage(e, sourceImage) == Ok(None) ==> r == VideoRun(Returned, false, None, [], false)
    ensures FindSourceFaceInImage(e, sourceImage).Raised? ==>
      r == VideoRun(Crashed(FindSourceFaceInImage(e, sourceImage).error), false, None, [], false)
    ensures (&& FindSourceFaceInImage(e, sourceImage).Ok? && FindSourceFaceInImage(e, sourceImage).value.Some?
             && c.referenceFrameTime >= 0 && FindReferenceFaceInVideo(e, c, frameAtTime).Raised?)
            ==> r == VideoRun(Crashed(FindReferenceFaceInVideo(e, c, frameAtTime).error), false, None, [], false)
    ensures (&& FindSourceFaceInImage(e, sourceImage).Ok? && FindSourceFaceInImage(e, sourceImage).value.Some?
             && c.referenceFrameTime >= 0 && FindReferenceFaceInVideo(e, c, frameAtTime) == Ok(None))
            ==> r == VideoRun(Returned, false, None, [], false)
    ensures r.filesOpened ==>
      var source := FindSourceFaceInImage(e, sourceImage).value.value;
      var fixed := if c.referenceFrameTime >= 0 then FindReferenceFaceInVideo(e, c, frameAtTime).value else None;
      && (r.path == Some(Streaming) ==>
            && r.written == Stream(e, c, mode, source, fixed, video).written
            && (r.status.Crashed? <==> Stream(e, c, mode, source, fixed, video).error.Some?))
      && (r.path == Some(InMemory) ==>
            && (r.status == Returned <==> ProcessInMemory(e, c, mode, source, fixed, video).Ok?)
            && (ProcessInMemory(e, c, mode, source, fixed, video).Ok? ==>
                  r.written == ProcessInMemory(e, c, mode, source, fixed, video).value))
  {
    match FindSourceFaceInImage(e, sourceImage)
    case Raised(error) => VideoRun(Crashed(error), false, None, [], false)
    case Ok(None) => VideoRun(Returned, false, None, [], false)
    case Ok(Some(source)) =>
      var lookup := if c.referenceFrameTime >= 0 then FindReferenceFaceInVideo(e, c, frameAtTime) else Ok(None);
      match lookup
      case Raised(error) => VideoRun(Crashed(error), false, None, [], false)
      case Ok(fixed) =>
        if c.referenceFrameTime >= 0 && fixed.None? then VideoRun(Returned, false, None, [], false)
        else if c.processVideoInMemory then
          match ProcessInMemory(e, c, mode, source, fixed, video)
          case Raised(error) => VideoRun(Crashed(error), true, Some(InMemory), [], false)
          case Ok(output) => VideoRun(Returned, true, Some(InMemory), output, true)
        else
          var streamed := Stream(e, c, mode, source, fixed, video);
          match streamed.error
          case Some(error) => VideoRun(Crashed(error), true, Some(Streaming), streamed.written, false)
          case None => VideoRun(Returned, true, Some(Streaming), streamed.written, true)
  }

  /**
    A configured reference time whose frame holds no reference face ends
    the run before any file is opened: nothing is written or remuxed, and
    unless the source lookup itself raised, the run returns normally.
  */
  lemma MissingFixedReferenceAborts(e: Engines, c: Configuration, mode: Mode, sourceImage: Frame, frameAtTime: Option<Frame>, video: seq<Frame>)
    requires c.referenceFrameTime >= 0
    requires FindReferenceFaceInVideo(e, c, frameAtTime) == Ok(None)
    ensures RunVideo(e, c, mode, sourceImage, frameAtTime, video).written == []
    ensures !RunVideo(e, c, mode, sourceImage, frameAtTime, video).filesOpened
    ensures !RunVideo(e, c, mode, sourceImage, frameAtTime, video).remuxed
    ensures FindSourceFaceInImage(e, sourceImage).Ok? ==> RunVideo(e, c, mode, sourceImage, frameAtTime, video).status == Returned
  {
  }
}

/**
  The face processors: the per-frame transform (swap, then restore), the
  single-face and every-face variants, and the three passes of batch mode:
  analyze builds the Target-Face Index, swap and restore apply it.
*/
module FaceProcessor {
  import opened Wrappers
  import opened Types
  import opened Config
  import opened FaceAnalyser
  import opened FaceRestorer

  /** `FaceProcessor` follows one reference face; `EveryFaceProcessor` takes every face. */
  datatype Mode = OneFace | EveryFace

  /**
    `process_frame`: swap the source face onto the target, then restore the
    target's region of the swapped frame, whatever `restore_face` says.
    Outside that region the swapped frame is kept.
  */
  function ProcessFrame(e: Engines, source: Face, target: Face, frame: Frame): (r: Frame)
    ensures var swapped := e.swap(source, target, frame);
      && |r| == |swapped|
      && (forall i :: 0 <= i < |r| ==> |r[i]| == |swapped[i]|)
      && (IsEmpty(CropRect(target, swapped)) ==> r == swapped)
      && (forall i, j :: 0 <= i < |swapped| && 0 <= j < |swapped[i]| && !Inside(CropRect(target, swapped), i, j) ==>
           r[i][j] == swapped[i][j])
      && (!IsEmpty(CropRect(target, swapped)) ==>
            TakenInside(r, swapped, CropRect(target, swapped), e.enhance(Crop(swapped, CropRect(target, swapped)))))
  {
    Restore(e, target, e.swap(source, target, frame))
  }

  /** Applies `step` for each face in turn, in the order of `faces`. */
  function ApplyFaces(step: (Face, Frame) -> Frame, faces: seq<Face>, frame: Frame): Frame
    decreases |faces|
  {
    if faces == [] then frame else ApplyFaces(step, faces[1..], step(faces[0], frame))
  }

  /** The last face of the list is applied last, to the result of all the others. */
  lemma {:induction false} ApplyFacesLast(step: (Face, Frame) -> Frame, faces: seq<Face>, face: Face, frame: Frame)
    ensures ApplyFaces(step, faces + [face], frame) == step(face, ApplyFaces(step, faces, frame))
    decreases |faces|
  {
    if faces == [] {
      assert [] + [face] == [face];
      assert [face][1..] == [];
    } else {
      assert (faces + [face])[0] == faces[0];
      assert (faces + [face])[1..] == faces[1..] + [face];
      ApplyFacesLast(step, faces[1..], face, step(faces[0], frame));
    }
  }

  function SwapStep(e: Engines, source: Face): (Face, Frame) -> Frame {
    (target: Face, frame: Frame) => e.swap(source, target, frame)
  }

  function RestoreStep(e: Engines): (Face, Frame) -> Frame {
    (target: Face, frame: Frame) => Restore(e, target, frame)
  }

  function ProcessStep(e: Engines, source: Face): (Face, Frame) -> Frame {
    (target: Face, frame: Frame) => ProcessFrame(e, source, target, frame)
  }

  /**
    `process` of either processor. The single-face one transforms the first
    face similar to the reference, or returns the frame unchanged; the
    every-face one transforms every face left to right.
  */
  function Process(e: Engines, c: Configuration, mode: Mode, source: Face, reference: Face, frame: Frame): (r: Frame)
    ensures mode == OneFace && FindSimilarFace(e, c, frame, reference).None? ==> r == frame
    ensures mode == OneFace && FindSimilarFace(e, c, frame, reference).Some? ==>
      r == ProcessFrame(e, source, FindSimilarFace(e, c, frame, reference).value, frame)
    ensures mode == EveryFace && FindFaces(e, frame).None? ==> r == frame
    ensures mode == EveryFace && FindFaces(e, frame).Some? ==>
      r == ApplyFaces(ProcessStep(e, source), FindFaces(e, frame).value, frame)
  {
    match mode
    case OneFace =>
      (match FindSimilarFace(e, c, frame, reference)
       case None => frame
       case Some(target) => ProcessFrame(e, source, target, frame))
    case EveryFace =>
      (match FindFaces(e, frame)
       case None => frame
       case Some(targets) => ApplyFaces(ProcessStep(e, source), targets, frame))
  }

  /** The every-face processor does not look at the reference face. */
  lemma EveryFaceIgnoresReference(e: Engines, c: Configuration, source: Face, reference1: Face, reference2: Face, frame: Frame)
    ensures Process(e, c, EveryFace, source, reference1, frame) == Process(e, c, EveryFace, source, reference2, frame)
  {
  }

  /** A frame in which the detector finds no face comes back unchanged. */
  lemma NoFacesNoChange(e: Engines, c: Configuration, mode: Mode, source: Face, reference: Face, frame: Frame)
    requires e.detect(frame) == Detected([])
    ensures Process(e, c, mode, source, reference, frame) == frame
  {
  }

  /** Only the similarity threshold of the configuration matters to the search. */
  lemma {:induction false} FirstSimilarUsesThreshold(e: Engines, c1: Configuration, c2: Configuration, faces: seq<Face>, reference: Face, from: nat)
    requires from <= |faces|
    requires c1.similarFaceDistance == c2.similarFaceDistance
    ensures FirstSimilar(e, c1, faces, reference, from) == FirstSimilar(e, c2, faces, reference, from)
    decreases |faces| - from
  {
    if from < |faces| {
      FirstSimilarUsesThreshold(e, c1, c2, faces, reference, from + 1);
    }
  }

  /**
    The per-frame transform restores whether or not `restore_face` is set:
    flipping the flag does not change what `process` returns.
  */
  lemma ProcessIgnoresRestoreFlag(e: Engines, c: Configuration, mode: Mode, source: Face, reference: Face, frame: Frame)
    ensures Process(e, c, mode, source, reference, frame)
         == Process(e, c.(restoreFace := !c.restoreFace), mode, source, reference, frame)
  {
    var faces := FindFaces(e, frame);
    if faces.Some? && faces.value != [] {
      FirstSimilarUsesThreshold(e, c, c.(restoreFace := !c.restoreFace), faces.value, reference, 0);
    }
  }

  /**
    The reference face for one frame: re-derived from the frame when no
    reference time is configured (`reference_frame_time < 0`), otherwise the
    fixed one found before the run.
  */
  function ReferenceForFrame(e: Engines, c: Configuration, fixed: Option<Face>, frame: Frame): (r: Result<Option<Face>>)
    ensures c.referenceFrameTime >= 0 ==> r == Ok(fixed)
    ensures c.referenceFrameTime < 0 ==> (r.Raised? <==> e.detect(frame).DetectorRaised?)
    ensures c.referenceFrameTime < 0 && r.Ok? && r.value.Some? ==> r.value.value in e.detect(frame).faces
    ensures c.referenceFrameTime < 0 ==> r == FindReferenceFace(e, c, frame)
  {
    if c.referenceFrameTime < 0 then FindReferenceFace(e, c, frame) else Ok(fixed)
  }

  /**
    What the analyze pass records for one frame: nothing without a reference
    face; otherwise the one similar face (single-face) or all detected faces
    (every-face), and nothing when that is empty.
  */
  function FrameTargets(e: Engines, c: Configuration, mode: Mode, fixed: Option<Face>, frame: Frame): (r: Result<Option<seq<Face>>>)
    ensures r.Raised? <==> ReferenceForFrame(e, c, fixed, frame).Raised?
    ensures r.Ok? && r.value.Some? ==> r.value.value != []
    ensures ReferenceForFrame(e, c, fixed, frame).Ok? && ReferenceForFrame(e, c, fixed, frame).value.None? ==> r == Ok(None)
    ensures ReferenceForFrame(e, c, fixed, frame).Ok? && ReferenceForFrame(e, c, fixed, frame).value.Some? ==>
      var reference := ReferenceForFrame(e, c, fixed, frame).value.value;
      && (mode == OneFace && FindSimilarFace(e, c, frame, reference).Some? ==>
            r == Ok(Some([FindSimilarFace(e, c, frame, reference).value])))
      && (mode == OneFace && FindSimilarFace(e, c, frame, reference).None? ==> r == Ok(None))
      && (mode == EveryFace && FindFaces(e, frame).Some? && FindFaces(e, frame).value != [] ==>
            r == Ok(Some(FindFaces(e, frame).value)))
      && (mode == EveryFace && (FindFaces(e, frame).None? || FindFaces(e, frame).value == []) ==> r == Ok(None))
  {
    var reference :- ReferenceForFrame(e, c, fixed, frame);
    if reference.None? then Ok(None)
    else match mode
      case OneFace =>
        (match FindSimilarFace(e, c, frame, reference.value)
         case None => Ok(None)
         case Some(target) => Ok(Some([target])))
      case EveryFace =>
        (match FindFaces(e, frame)
         case None => Ok(None)
         case Some(targets) =>
           if targets == [] then Ok(None)
           else Ok(Some(targets)))
  }

  /**
    Targets are recorded only when the frame has a reference face; they are
    faces the detector found: the single similar face, or every face.
  */
  lemma FrameTargetsShape(e: Engines, c: Configuration, mode: Mode, fixed: Option<Face>, frame: Frame)
    requires FrameTargets(e, c, mode, fixed, frame).Ok? && FrameTargets(e, c, mode, fixed, frame).value.Some?
    ensures ReferenceForFrame(e, c, fixed, frame).value.Some?
    ensures e.detect(frame).Detected?
    ensures forall f :: f in FrameTargets(e, c, mode, fixed, frame).value.value ==> f in e.detect(frame).faces
    ensures mode == OneFace ==>
      var target := FindSimilarFace(e, c, frame, ReferenceForFrame(e, c, fixed, frame).value.value);
      target.Some? && FrameTargets(e, c, mode, fixed, frame).value.value == [target.value]
    ensures mode == EveryFace ==> FrameTargets(e, c, mode, fixed, frame).value.value == FindFaces(e, frame).value
  {
    if mode == EveryFace {
      var targets := FindFaces(e, frame).value;
      assert forall f :: f in targets ==> f in multiset(targets);
    }
  }

  /** One entry of the Target-Face Index: a frame position and its target faces. */
  datatype Entry = Entry(frameIndex: nat, faces: seq<Face>)

  /** Every position of the index names a frame of a list of length `n`. */
  predicate InRange(index: seq<Entry>, n: nat) {
    forall k :: 0 <= k < |index| ==> index[k].frameIndex < n
  }

  ghost predicate StrictlyIncreasing(index: seq<Entry>) {
    forall k, l :: 0 <= k < l < |index| ==> index[k].frameIndex < index[l].frameIndex
  }

  /** Some entry of the index is for frame `i`. */
  predicate Indexes(index: seq<Entry>, i: nat) {
    index != [] && (index[0].frameIndex == i || Indexes(index[1..], i))
  }

  lemma {:induction false} NotIndexedBelow(index: seq<Entry>, i: nat)
    requires forall k :: 0 <= k < |index| ==> i < index[k].frameIndex
    ensures !Indexes(index, i)
  {
    if index != [] {
      NotIndexedBelow(index[1..], i);
    }
  }

  /** The targets of every frame of the list, one lookup per frame. */
  function TargetsOf(e: Engines, c: Configuration, mode: Mode, fixed: Option<Face>, frames: seq<Frame>): (ts: seq<Result<Option<seq<Face>>>>)
    ensures |ts| == |frames|
    ensures forall i :: 0 <= i < |frames| ==> ts[i] == FrameTargets(e, c, mode, fixed, frames[i])
  {
    seq(|frames|, i requires 0 <= i < |frames| => FrameTargets(e, c, mode, fixed, frames[i]))
  }

  /**
    The analyze loop from frame `start` on, given each frame's targets: it
    raises exactly when some frame's lookup raises, and records only
    positions from `start` to the end of the frame list.
  */
  function IndexFrom(ts: seq<Result<Option<seq<Face>>>>, start: nat): (r: Result<seq<Entry>>)
    requires start <= |ts|
    ensures r.Ok? <==> forall i :: start <= i < |ts| ==> ts[i].Ok?
    ensures r.Ok? ==> forall k :: 0 <= k < |r.value| ==> start <= r.value[k].frameIndex < |ts|
    decreases |ts| - start
  {
    if start == |ts| then Ok([])
    else
      var targets :- ts[start];
      var rest :- IndexFrom(ts, start + 1);
      if targets.None? then Ok(rest)
      else Ok([Entry(start, targets.value)] + rest)
  }

  /** The positions the analyze loop records are strictly increasing. */
  lemma {:induction false} IndexFromIncreasing(ts: seq<Result<Option<seq<Face>>>>, start: nat)
    requires start <= |ts|
    requires IndexFrom(ts, start).Ok?
    ensures StrictlyIncreasing(IndexFrom(ts, start).value)
    decreases |ts| - start
  {
    if start < |ts| {
      IndexFromIncreasing(ts, start + 1);
      var rest := IndexFrom(ts, start + 1).value;
      var targets := ts[start].value;
      if targets.Some? {
        var index := [Entry(start, targets.value)] + rest;
        assert IndexFrom(ts, start).value == index;
        forall k, l | 0 <= k < l < |index|
          ensures index[k].frameIndex < index[l].frameIndex
        {
          assert index[l] == rest[l - 1];
          if k > 0 {
            assert index[k] == rest[k - 1];
          }
        }
      }
    }
  }

  /**
    The index the analyze loop records from frame `start` on holds each
    recorded frame's targets, and has an entry for every frame that has targets.
  */
  lemma {:induction false} IndexFromRecordsTargets(ts: seq<Result<Option<seq<Face>>>>, start: nat)
    requires start <= |ts|
    requires IndexFrom(ts, start).Ok?
    ensures forall k :: 0 <= k < |IndexFrom(ts, start).value| ==>
      ts[IndexFrom(ts, start).value[k].frameIndex] == Ok(Some(IndexFrom(ts, start).value[k].faces))
    ensures forall i :: start <= i < |ts| && ts[i] != Ok(None) ==> Indexes(IndexFrom(ts, start).value, i)
    decreases |ts| - start
  {
    if start < |ts| {
      IndexFromRecordsTargets(ts, start + 1);
      var rest := IndexFrom(ts, start + 1).value;
      var targets := ts[start].value;
      if targets.Some? {
        var index := [Entry(start, targets.value)] + rest;
        assert IndexFrom(ts, start).value == index;
        assert index[1..] == rest;
        forall k | 0 <= k < |index|
          ensures ts[index[k].frameIndex] == Ok(Some(index[k].faces))
        {
          if k > 0 {
            assert index[k] == rest[k - 1];
          }
        }
      } else {
        assert IndexFrom(ts, start).value == rest;
      }
    }
  }

  /**
    Only frames with targets are indexed, when every entry records its
    frame's targets.
  */
  lemma IndexedHaveTargets(ts: seq<Result<Option<seq<Face>>>>, index: seq<Entry>)
    requires forall k :: 0 <= k < |index| ==> index[k].frameIndex < |ts| && ts[index[k].frameIndex] == Ok(Some(index[k].faces))
    ensures forall i :: 0 <= i < |ts| && Indexes(index, i) ==> ts[i] != Ok(None)
  {
    forall i | 0 <= i < |ts| && Indexes(index, i)
      ensures ts[i] != Ok(None)
    {
      var k := IndexWitness(index, i);
    }
  }

  /** `analyze` of either processor: the Target-Face Index of the whole frame list. */
  function Analyze(e: Engines, c: Configuration, mode: Mode, fixed: Option<Face>, frames: seq<Frame>): (r: Result<seq<Entry>>)
    ensures r.Ok? <==> forall i :: 0 <= i < |frames| ==> FrameTargets(e, c, mode, fixed, frames[i]).Ok?
    ensures r.Ok? ==> InRange(r.value, |frames|) && StrictlyIncreasing(r.value)
    ensures r.Ok? ==> forall k :: 0 <= k < |r.value| ==>
      FrameTargets(e, c, mode, fixed, frames[r.value[k].frameIndex]) == Ok(Some(r.value[k].faces))
    ensures r.Ok? ==> forall i :: 0 <= i < |frames| ==>
      (Indexes(r.value, i) <==> FrameTargets(e, c, mode, fixed, frames[i]) != Ok(None))
  {
    var ts := TargetsOf(e, c, mode, fixed, frames);
    var r := IndexFrom(ts, 0);
    if r.Ok? then
      IndexFromIncreasing(ts, 0);
      IndexFromRecordsTargets(ts, 0);
      IndexedHaveTargets(ts, r.value);
      r
    else r
  }

  /** The position of an entry for frame `i`. */
  lemma {:induction false} IndexWitness(index: seq<Entry>, i: nat) returns (k: nat)
    requires Indexes(index, i)
    ensures k < |index| && index[k].frameIndex == i
  {
    if index[0].frameIndex == i {
      k := 0;
    } else {
      var k' := IndexWitness(index[1..], i);
      k := k' + 1;
    }
  }

  /**
    A pass over the index (the loops of `swap` and `restore`): for each
    entry in order, `step` each recorded face onto the frame at that
    position. Frames the index does not name are unchanged.
  */
  function ApplyPass(step: (Face, Frame) -> Frame, frames: seq<Frame>, index: seq<Entry>): (r: seq<Frame>)
    requires InRange(index, |frames|)
    ensures |r| == |frames|
    ensures forall i :: 0 <= i < |frames| && !Indexes(index, i) ==> r[i] == frames[i]
    decreases |index|
  {
    if index == [] then frames
    else
      var i := index[0].frameIndex;
      ApplyPass(step, frames[i := ApplyFaces(step, index[0].faces, frames[i])], index[1..])
  }

  /**
    With strictly increasing positions, as analyze produces them, the frame
    at an entry's position ends up as all of that entry's faces applied, in
    recorded order, to the original frame.
  */
  lemma {:induction false} ApplyPassAtEntry(step: (Face, Frame) -> Frame, frames: seq<Frame>, index: seq<Entry>, k: nat)
    requires InRange(index, |frames|) && StrictlyIncreasing(index)
    requires k < |index|
    ensures ApplyPass(step, frames, index)[index[k].frameIndex]
         == ApplyFaces(step, index[k].faces, frames[index[k].frameIndex])
    decreases |index|
  {
    var i := index[0].frameIndex;
    var updated := frames[i := ApplyFaces(step, index[0].faces, frames[i])];
    var tail := index[1..];
    if k == 0 {
      NotIndexedBelow(tail, i);
    } else {
      ApplyPassAtEntry(step, updated, tail, k - 1);
      assert tail[k - 1] == index[k];
    }
  }

  /**
    `swap`: the swap pass. Only indexed frames change, the length is kept,
    and an indexed frame is its original with every recorded face swapped in turn.
  */
  function SwapPass(e: Engines, frames: seq<Frame>, index: seq<Entry>, source: Face): (r: seq<Frame>)
    requires InRange(index, |frames|)
    ensures |r| == |frames|
    ensures forall i :: 0 <= i < |frames| && !Indexes(index, i) ==> r[i] == frames[i]
    ensures StrictlyIncreasing(index) ==> forall k :: 0 <= k < |index| ==>
      r[index[k].frameIndex] == ApplyFaces(SwapStep(e, source), index[k].faces, frames[index[k].frameIndex])
  {
    var r := ApplyPass(SwapStep(e, source), frames, index);
    assert StrictlyIncreasing(index) ==> forall k :: 0 <= k < |index| ==>
      r[index[k].frameIndex] == ApplyFaces(SwapStep(e, source), index[k].faces, frames[index[k].frameIndex]) by {
      if StrictlyIncreasing(index) {
        forall k | 0 <= k < |index| {
          ApplyPassAtEntry(SwapStep(e, source), frames, index, k);
        }
      }
    }
    r
  }

  /**
    `restore`: the restore pass. Only indexed frames change, the length is
    kept, and an indexed frame is its original restored around every recorded face in turn.
  */
  function RestorePass(e: Engines, frames: seq<Frame>, index: seq<Entry>): (r: seq<Frame>)
    requires InRange(index, |frames|)
    ensures |r| == |frames|
    ensures forall i :: 0 <= i < |frames| && !Indexes(index, i) ==> r[i] == frames[i]
    ensures StrictlyIncreasing(index) ==> forall k :: 0 <= k < |index| ==>
      r[index[k].frameIndex] == ApplyFaces(RestoreStep(e), index[k].faces, frames[index[k].frameIndex])
  {
    var r := ApplyPass(RestoreStep(e), frames, index);
    assert StrictlyIncreasing(index) ==> forall k :: 0 <= k < |index| ==>
      r[index[k].frameIndex] == ApplyFaces(RestoreStep(e), index[k].faces, frames[index[k].frameIndex]) by {
      if StrictlyIncreasing(index) {
        forall k | 0 <= k < |index| {
          ApplyPassAtEntry(RestoreStep(e), frames, index, k);
        }
      }
    }
    r
  }
}

/**
  Face selection: the detector's faces sorted by left edge, the positional
  lookup on the raw detector order, and the first-under-threshold search
  for a face similar to a reference.
*/
module FaceAnalyser {
  import opened Wrappers
  import opened Types
  import opened Config
  import Utils

  ghost predicate SortedByLeft(faces: seq<Face>) {
    forall i, j :: 0 <= i < j < |faces| ==> Left(faces[i]) <= Left(faces[j])
  }

  /** The faces whose left edge is `x`, in their order in `faces`. */
  function AtLeft(faces: seq<Face>, x: real): seq<Face> {
    if faces == [] then []
    else (if Left(faces[0]) == x then [faces[0]] else []) + AtLeft(faces[1..], x)
  }

  lemma {:induction false} AtLeftAppend(a: seq<Face>, b: seq<Face>, x: real)
    ensures AtLeft(a + b, x) == AtLeft(a, x) + AtLeft(b, x)
  {
    if a == [] {
      assert a + b == b;
    } else {
      var ab := a + b;
      assert ab != [] && ab[0] == a[0];
      assert ab[1..] == a[1..] + b;
      AtLeftAppend(a[1..], b, x);
      assert AtLeft(ab, x) == (if Left(a[0]) == x then [a[0]] else []) + AtLeft(ab[1..], x);
      assert AtLeft(a, x) == (if Left(a[0]) == x then [a[0]] else []) + AtLeft(a[1..], x);
    }
  }

  /** Inserts `face` before the first face whose left edge is not smaller. */
  function Insert(face: Face, sorted: seq<Face>): seq<Face> {
    if sorted == [] || Left(face) <= Left(sorted[0]) then [face] + sorted
    else [sorted[0]] + Insert(face, sorted[1..])
  }

  lemma {:induction false} InsertKeepsOrder(face: Face, sorted: seq<Face>)
    requires SortedByLeft(sorted)
    ensures |Insert(face, sorted)| == |sorted| + 1
    ensures Insert(face, sorted)[0] == face || Insert(face, sorted)[0] == sorted[0]
    ensures SortedByLeft(Insert(face, sorted))
    ensures multiset(Insert(face, sorted)) == multiset([face] + sorted)
  {
    if sorted == [] || Left(face) <= Left(sorted[0]) {
    } else {
      var tail := sorted[1..];
      var rest := Insert(face, tail);
      InsertKeepsOrder(face, tail);
      assert sorted == [sorted[0]] + tail;
      assert Left(sorted[0]) <= Left(rest[0]);
    }
  }

  /** Inserting keeps the order among faces with the same left edge. */
  lemma {:induction false} InsertKeepsTies(face: Face, sorted: seq<Face>, x: real)
    ensures AtLeft(Insert(face, sorted), x) == AtLeft([face] + sorted, x)
  {
    if sorted == [] || Left(face) <= Left(sorted[0]) {
    } else {
      var tail := sorted[1..];
      var rest := Insert(face, tail);
      InsertKeepsTies(face, tail, x);
      assert sorted == [sorted[0]] + tail;
      assert Insert(face, sorted) == [sorted[0]] + rest;
      AtLeftAppend([sorted[0]], rest, x);
      AtLeftAppend([face], tail, x);
      AtLeftAppend([face], sorted, x);
      AtLeftAppend([sorted[0]], tail, x);
    }
  }

  /**
    Python's `sorted(faces, key = lambda x: x.bbox[0])`: a stable sort by
    left edge. The result is ordered, holds the same faces, and keeps the
    detector order among faces with the same left edge.
  */
  function SortByLeft(faces: seq<Face>): (r: seq<Face>)
    ensures |r| == |faces|
    ensures SortedByLeft(r)
    ensures multiset(r) == multiset(faces)
    ensures forall x :: AtLeft(r, x) == AtLeft(faces, x)
    decreases |faces|
  {
    if faces == [] then []
    else
      var rest := SortByLeft(faces[1..]);
      InsertKeepsOrder(faces[0], rest);
      assert faces == [faces[0]] + faces[1..];
      assert forall x :: AtLeft(Insert(faces[0], rest), x) == AtLeft(faces, x) by {
        forall x
          ensures AtLeft(Insert(faces[0], rest), x) == AtLeft(faces, x)
        {
          InsertKeepsTies(faces[0], rest, x);
          AtLeftAppend([faces[0]], rest, x);
          AtLeftAppend([faces[0]], faces[1..], x);
        }
      }
      Insert(faces[0], rest)
  }

  lemma {:induction false} AtLeftMembers(faces: seq<Face>, x: real)
    ensures forall f :: f in AtLeft(faces, x) ==> f in faces && Left(f) == x
    ensures forall i :: 0 <= i < |faces| && Left(faces[i]) == x ==> AtLeft(faces, x) != []
  {
    if faces != [] {
      AtLeftMembers(faces[1..], x);
    }
  }

  /** An ordered sequence starts with the first face of its minimal left edge. */
  lemma AtLeftHead(faces: seq<Face>)
    requires faces != []
    ensures AtLeft(faces, Left(faces[0])) != []
    ensures AtLeft(faces, Left(faces[0]))[0] == faces[0]
  {
  }

  /**
    Stable sorting is unique: any ordered arrangement that keeps the
    detector order among equal left edges is `SortByLeft`'s result, so it
    is the list Python's `sorted` returns.
  */
  lemma {:induction false} StableSortUnique(faces: seq<Face>, s: seq<Face>)
    requires SortedByLeft(s)
    requires forall x :: AtLeft(s, x) == AtLeft(faces, x)
    ensures s == SortByLeft(faces)
  {
    StableArrangementsEqual(s, SortByLeft(faces));
  }

  /** Two ordered arrangements with the same faces at every edge start with the same face. */
  lemma SameHead(a: seq<Face>, b: seq<Face>)
    requires SortedByLeft(a) && SortedByLeft(b)
    requires forall x :: AtLeft(a, x) == AtLeft(b, x)
    requires a != [] && b != []
    ensures a[0] == b[0]
  {
    var xa, xb := Left(a[0]), Left(b[0]);
    AtLeftHead(a);
    AtLeftHead(b);
    AtLeftMembers(a, xb);
    AtLeftMembers(b, xa);
    // The head of each is in the other, so neither head's edge is smaller.
    assert AtLeft(b, xa)[0] in b;
    var i :| 0 <= i < |b| && b[i] == AtLeft(b, xa)[0];
    assert xb <= xa;
    assert AtLeft(a, xb)[0] in a;
    var j :| 0 <= j < |a| && a[j] == AtLeft(a, xb)[0];
    assert xa <= xb;
  }

  /** Dropping a common head keeps the faces at every edge equal. */
  lemma DropHead(a: seq<Face>, b: seq<Face>, x: real)
    requires a != [] && b != [] && a[0] == b[0]
    requires AtLeft(a, x) == AtLeft(b, x)
    ensures AtLeft(a[1..], x) == AtLeft(b[1..], x)
  {
    var head := if Left(a[0]) == x then [a[0]] else [];
    assert AtLeft(a, x) == head + AtLeft(a[1..], x);
    assert AtLeft(b, x) == head + AtLeft(b[1..], x);
    assert AtLeft(a[1..], x) == (head + AtLeft(a[1..], x))[|head|..];
    assert AtLeft(b[1..], x) == (head + AtLeft(b[1..], x))[|head|..];
  }

  lemma {:induction false} StableArrangementsEqual(a: seq<Face>, b: seq<Face>)
    requires SortedByLeft(a) && SortedByLeft(b)
    requires forall x :: AtLeft(a, x) == AtLeft(b, x)
    ensures a == b
    decreases |a| + |b|
  {
    if a != [] {
      AtLeftHead(a);
      assert AtLeft(b, Left(a[0])) != [];
    }
    if b != [] {
      AtLeftHead(b);
      assert AtLeft(a, Left(b[0])) != [];
    }
    if a != [] && b != [] {
      SameHead(a, b);
      forall x
        ensures AtLeft(a[1..], x) == AtLeft(b[1..], x)
      {
        DropHead(a, b, x);
      }
      StableArrangementsEqual(a[1..], b[1..]);
      assert a == [a[0]] + a[1..];
      assert b == [b[0]] + b[1..];
    }
  }

  /**
    Python's `min(faces, key = lambda x: x.bbox[0])`: the index of the first
    face with the smallest left edge.
  */
  function LeftmostIndex(faces: seq<Face>): (k: nat)
    requires |faces| > 0
    ensures k < |faces|
    ensures forall j :: 0 <= j < |faces| ==> Left(faces[k]) <= Left(faces[j])
    ensures forall j :: 0 <= j < k ==> Left(faces[k]) < Left(faces[j])
    decreases |faces|
  {
    if |faces| == 1 then 0
    else
      var k := LeftmostIndex(faces[..|faces| - 1]);
      if Left(faces[|faces| - 1]) < Left(faces[k]) then |faces| - 1 else k
  }

  /** `find_faces`: the detected faces sorted by left edge, or `None` if the detector raised. */
  function FindFaces(e: Engines, frame: Frame): (r: Option<seq<Face>>)
    ensures r.None? <==> e.detect(frame).DetectorRaised?
    ensures r.Some? ==> SortedByLeft(r.value)
    ensures r.Some? ==> multiset(r.value) == multiset(e.detect(frame).faces)
  {
    match e.detect(frame)
    case DetectorRaised => None
    case Detected(faces) => Some(SortByLeft(faces))
  }

  /**
    `__find_face`: a non-negative position indexes the detector's own,
    unsorted order; a negative one picks the leftmost face. A detector
    ValueError is not caught here and escapes.
  */
  function FindFace(e: Engines, frame: Frame, position: int): (r: Result<Option<Face>>)
    ensures r.Raised? <==> e.detect(frame).DetectorRaised?
    ensures r.Raised? ==> r.error == DetectorValueError
    ensures r.Ok? && r.value.Some? ==> r.value.value in e.detect(frame).faces
    ensures r == Ok(None) <==>
      e.detect(frame).Detected? && (e.detect(frame).faces == [] || |e.detect(frame).faces| <= position)
    ensures 0 <= position && e.detect(frame).Detected? && position < |e.detect(frame).faces| ==>
      r == Ok(Some(e.detect(frame).faces[position]))
  {
    match e.detect(frame)
    case DetectorRaised => Raised(DetectorValueError)
    case Detected(faces) =>
      if faces == [] then Ok(None)
      else if position >= 0 then
        if position < |faces| then Ok(Some(faces[position])) else Ok(None)
      else Ok(Some(faces[LeftmostIndex(faces)]))
  }

  /** The first face with a given edge is the head of the faces at that edge. */
  lemma {:induction false} FirstAtLeft(faces: seq<Face>, k: nat)
    requires k < |faces|
    requires forall j :: 0 <= j < k ==> Left(faces[j]) != Left(faces[k])
    ensures AtLeft(faces, Left(faces[k])) != []
    ensures AtLeft(faces, Left(faces[k]))[0] == faces[k]
  {
    if k > 0 {
      FirstAtLeft(faces[1..], k - 1);
    }
  }

  /**
    A negative position picks the same face as position 0 of the sorted
    list `find_faces` returns: the leftmost face, earliest in detector order.
  */
  lemma NegativePositionIsFirstSorted(e: Engines, frame: Frame, position: int)
    requires position < 0
    requires e.detect(frame).Detected? && e.detect(frame).faces != []
    ensures FindFaces(e, frame).Some? && FindFaces(e, frame).value != []
    ensures FindFace(e, frame, position) == Ok(Some(FindFaces(e, frame).value[0]))
  {
    var faces := e.detect(frame).faces;
    var sorted := SortByLeft(faces);
    var k := LeftmostIndex(faces);
    assert faces[k] in multiset(sorted);
    var i :| 0 <= i < |sorted| && sorted[i] == faces[k];
    assert sorted[0] in multiset(faces);
    var j :| 0 <= j < |faces| && faces[j] == sorted[0];
    var m := Left(faces[k]);
    assert Left(sorted[0]) == m;
    FirstAtLeft(faces, k);
    AtLeftHead(sorted);
    assert AtLeft(sorted, m) == AtLeft(faces, m);
  }

  /** `hasattr` on both faces and a squared distance strictly under the threshold. */
  predicate Similar(e: Engines, c: Configuration, face: Face, reference: Face) {
    && face.embedding.Some?
    && reference.embedding.Some?
    && e.distance(face.embedding.value, reference.embedding.value) < c.similarFaceDistance
  }

  /** The index of the first face from `from` on that is similar to the reference. */
  function FirstSimilar(e: Engines, c: Configuration, faces: seq<Face>, reference: Face, from: nat): (r: Option<nat>)
    requires from <= |faces|
    ensures r.Some? ==> from <= r.value < |faces| && Similar(e, c, faces[r.value], reference)
    ensures r.Some? ==> forall j :: from <= j < r.value ==> !Similar(e, c, faces[j], reference)
    ensures r.None? ==> forall j :: from <= j < |faces| ==> !Similar(e, c, faces[j], reference)
    decreases |faces| - from
  {
    if from == |faces| then None
    else if Similar(e, c, faces[from], reference) then Some(from)
    else FirstSimilar(e, c, faces, reference, from + 1)
  }

  /** `face` is the first face of `faces` similar to the reference. */
  ghost predicate IsFirstSimilar(e: Engines, c: Configuration, faces: seq<Face>, reference: Face, face: Face) {
    exists k :: 0 <= k < |faces| && faces[k] == face && Similar(e, c, face, reference)
      && forall j :: 0 <= j < k ==> !Similar(e, c, faces[j], reference)
  }

  /**
    `find_similar_face`: the first face, in left-to-right order, whose
    distance to the reference is strictly under the threshold; not the
    closest one. `None` when detection failed or no face qualifies.
  */
  function FindSimilarFace(e: Engines, c: Configuration, frame: Frame, reference: Face): (r: Option<Face>)
    ensures r.Some? ==> FindFaces(e, frame).Some? && IsFirstSimilar(e, c, FindFaces(e, frame).value, reference, r.value)
    ensures r.Some? ==> r.value in e.detect(frame).faces
    ensures r.None? <==>
      FindFaces(e, frame).None? || forall f :: f in FindFaces(e, frame).value ==> !Similar(e, c, f, reference)
  {
    match FindFaces(e, frame)
    case None => None
    case Some(faces) =>
      if faces == [] then None
      else match FirstSimilar(e, c, faces, reference, 0)
        case None => None
        case Some(k) =>
          assert faces[k] in multiset(faces);
          Some(faces[k])
  }

  /** `find_source_face_in_image`: the face at position 0 of a non-blank source image. */
  function FindSourceFaceInImage(e: Engines, image: Frame): (r: Result<Option<Face>>)
    ensures !AnyNonZero(image) ==> r == Ok(None)
    ensures r.Raised? <==> AnyNonZero(image) && e.detect(image).DetectorRaised?
    ensures AnyNonZero(image) && e.detect(image).Detected? && e.detect(image).faces != [] ==>
      r == Ok(Some(e.detect(image).faces[0]))
    ensures r == Ok(None) <==> !AnyNonZero(image) || e.detect(image) == Detected([])
  {
    if AnyNonZero(image) then FindFace(e, image, 0) else Ok(None)
  }

  /**
    `find_reference_face_in_image` and `find_reference_face_in_video_frame`
    (they differ only in logging): the face at the configured position.
  */
  function FindReferenceFace(e: Engines, c: Configuration, frame: Frame): (r: Result<Option<Face>>)
    ensures r.Raised? <==> e.detect(frame).DetectorRaised?
    ensures r.Ok? && r.value.Some? ==> r.value.value in e.detect(frame).faces
    ensures r == Ok(None) <==>
      e.detect(frame).Detected?
      && (e.detect(frame).faces == [] || |e.detect(frame).faces| <= c.referenceFacePosition)
    ensures 0 <= c.referenceFacePosition && e.detect(frame).Detected?
            && c.referenceFacePosition < |e.detect(frame).faces| ==>
      r == Ok(Some(e.detect(frame).faces[c.referenceFacePosition]))
    ensures c.referenceFacePosition < 0 && e.detect(frame).Detected? && e.detect(frame).faces != [] ==>
      FindFaces(e, frame).Some? && FindFaces(e, frame).value != []
      && r == Ok(Some(FindFaces(e, frame).value[0]))
  {
    var r := FindFace(e, frame, c.referenceFacePosition);
    if c.referenceFacePosition < 0 && e.detect(frame).Detected? && e.detect(frame).faces != [] then
      NegativePositionIsFirstSorted(e, frame, c.referenceFacePosition);
      r
    else r
  }

  /**
    `find_reference_face_in_video`: the reference face in the frame read at
    the configured time, where that read is an input that may be missing.
  */
  function FindReferenceFaceInVideo(e: Engines, c: Configuration, frameAtTime: Option<Frame>): (r: Result<Option<Face>>)
    ensures frameAtTime.None? ==> r == Ok(None)
    ensures frameAtTime.Some? ==> r == FindReferenceFace(e, c, frameAtTime.value)
    ensures r.Ok? && r.value.Some? ==>
      (frameAtTime.Some? && e.detect(frameAtTime.value).Detected?
       && r.value.value in e.detect(frameAtTime.value).faces)
  {
    match frameAtTime
    case None => Ok(None)
    case Some(frame) => FindReferenceFace(e, c, frame)
  }

  /** Two faces for the witnesses below: `far` is further left, `near` is closer to the reference. */
  function WitnessFar(): Face { Face(BBox(1.0, 0.0, 2.0, 1.0), Some([1.0]), 0) }
  function WitnessNear(): Face { Face(BBox(5.0, 0.0, 6.0, 1.0), Some([2.0]), 1) }

  /** A detector that reports `near` before `far`, with `near` the closer embedding. */
  function WitnessEngines(): Engines {
    Engines(
      (frame: Frame) => Detected([WitnessNear(), WitnessFar()]),
      (source: Face, target: Face, frame: Frame) => frame,
      (crop: Frame) => crop,
      (a: Embedding, b: Embedding) => if a == [1.0] then 0.5 else 0.1)
  }

  function WitnessConfiguration(): Configuration {
    var none := Utils.Path("", "", "");
    Configuration(none, none, none, false, false, false, 0, -1, 0.85, "CPUExecutionProvider", "cpu")
  }

  /**
    The similar-face search takes the first qualifying face in left-to-right
    order, not the closest: here both faces are under the threshold and the
    right-hand one is closer, yet the left-hand one is returned.
  */
  lemma FirstMatchIsNotClosest()
    ensures var e, reference := WitnessEngines(), Face(BBox(0.0, 0.0, 1.0, 1.0), Some([0.0]), 2);
      && e.distance(WitnessNear().embedding.value, [0.0]) < e.distance(WitnessFar().embedding.value, [0.0])
      && Similar(e, WitnessConfiguration(), WitnessNear(), reference)
      && FindSimilarFace(e, WitnessConfiguration(), [], reference) == Some(WitnessFar())
  {
    WitnessSorted();
    var e := WitnessEngines();
    var c := WitnessConfiguration();
    var reference := Face(BBox(0.0, 0.0, 1.0, 1.0), Some([0.0]), 2);
    assert e.detect([]) == Detected([WitnessNear(), WitnessFar()]);
    assert FindFaces(e, []) == Some([WitnessFar(), WitnessNear()]);
    assert e.distance([1.0], [0.0]) == 0.5;
    assert Similar(e, c, WitnessFar(), reference);
    assert FirstSimilar(e, c, [WitnessFar(), WitnessNear()], reference, 0) == Some(0);
  }

  /**
    A non-negative position indexes the detector's unsorted order: position
    0 can pick a face other than the first one `find_faces` returns.
  */
  lemma PositionIndexesDetectorOrder()
    ensures FindFace(WitnessEngines(), [], 0) == Ok(Some(WitnessNear()))
    ensures FindFaces(WitnessEngines(), []) == Some([WitnessFar(), WitnessNear()])
  {
    WitnessSorted();
    var e := WitnessEngines();
    assert e.detect([]) == Detected([WitnessNear(), WitnessFar()]);
  }

  lemma WitnessSorted()
    ensures SortByLeft([WitnessNear(), WitnessFar()]) == [WitnessFar(), WitnessNear()]
  {
    var near, far := WitnessNear(), WitnessFar();
    assert [near, far][1..] == [far];
    assert [far][1..] == [];
    assert SortByLeft([far]) == Insert(far, []) == [far];
    assert Insert(near, []) == [near];
    assert Insert(near, [far]) == [far] + Insert(near, [far][1..]);
  }
}

/**
  The values passed between the components: raster frames, detected faces,
  and the three inference engines plus the embedding distance, which the
  model treats as uninterpreted functions.
*/
module Types {
  import opened Wrappers

  /** One pixel of an OpenCV image, channels in BGR order. */
  datatype Pixel = Pixel(b: int, g: int, r: int)

  const Black: Pixel := Pixel(0, 0, 0)

  /** The number of columns of a raster (0 for a raster without rows). */
  function Width(rows: seq<seq<Pixel>>): nat {
    if |rows| == 0 then 0 else |rows[0]|
  }

  /** Every row has the same number of columns, as in a numpy image array. */
  predicate IsRaster(rows: seq<seq<Pixel>>) {
    forall i :: 0 <= i < |rows| ==> |rows[i]| == Width(rows)
  }

  /** A height x width image, indexed `frame[row][column]`. */
  type Frame = rows: seq<seq<Pixel>> | IsRaster(rows) witness []

  /** numpy's `frame.any()`: some channel of some pixel is non-zero. */
  predicate AnyNonZero(frame: Frame) {
    exists i, j :: 0 <= i < |frame| && 0 <= j < |frame[i]| && frame[i][j] != Black
  }

  /** A detector bounding box `(start_x, start_y, end_x, end_y)` in float pixels. */
  datatype BBox = BBox(x0: real, y0: real, x1: real, y1: real)

  type Embedding = seq<real>

  /**
    A detected face. `embedding` is `None` when the face object has no
    `normed_embedding` attribute; `attributes` stands for the detection
    score, age, gender and landmarks, which nothing here interprets.
  */
  datatype Face = Face(bbox: BBox, embedding: Option<Embedding>, attributes: nat)

  /** The sort key of the face analyser: the left x of the bounding box. */
  function Left(face: Face): real {
    face.bbox.x0
  }

  /** What one call of the detector produces: faces in detector order, or a ValueError. */
  datatype Detection = Detected(faces: seq<Face>) | DetectorRaised

  /**
    The opaque engines:
    - `detect`: insightface `FaceAnalysis.get`;
    - `swap(source, target, frame)`: the inswapper model with paste-back;
    - `enhance(crop)`: GFPGAN's restored face for a cropped region;
    - `distance(a, b)`: the squared Euclidean distance of two embeddings.
  */
  datatype Engines = Engines(
    detect: Frame -> Detection,
    swap: (Face, Face, Frame) -> Frame,
    enhance: Frame -> Frame,
    distance: (Embedding, Embedding) -> real)
}

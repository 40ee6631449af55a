/**
  The face restorer's crop rule: the bounding box is truncated to integers,
  normalised as a Python slice against the frame, and only a non-empty crop
  is enhanced and pasted back over the same rectangle.
*/
module FaceRestorer {
  import opened Types

  /** Python's `int` of a float: rounds toward zero. */
  function Truncate(x: real): (r: int)
    ensures 0.0 <= x ==> 0 <= r && r as real <= x < r as real + 1.0
    ensures x < 0.0 ==> r <= 0 && r as real - 1.0 < x <= r as real
  {
    if x >= 0.0 then x.Floor else -((-x).Floor)
  }

  /** One bound of a step-1 Python slice over a sequence of length `n`, normalised. */
  function SliceBound(i: int, n: nat): (r: nat)
    ensures r <= n
    ensures 0 <= i <= n ==> r == i
    ensures i < 0 <= i + n ==> r == i + n
    ensures i + n < 0 ==> r == 0
    ensures n < i ==> r == n
  {
    if i < 0 then (if i + n < 0 then 0 else i + n)
    else if i > n then n
    else i
  }

  /** A rectangle of rows `[top, bottom)` and columns `[left, right)`. */
  datatype Rect = Rect(top: nat, bottom: nat, left: nat, right: nat)

  predicate Inside(rect: Rect, i: int, j: int) {
    rect.top <= i < rect.bottom && rect.left <= j < rect.right
  }

  predicate IsEmpty(rect: Rect) {
    rect.top == rect.bottom || rect.left == rect.right
  }

  /**
    The rectangle `frame[start_y : end_y, start_x : end_x]` selects, for the
    face's bounding box converted with `int`. It always lies in the frame;
    a slice whose stop precedes its start selects nothing.
  */
  function CropRect(face: Face, frame: Frame): (r: Rect)
    ensures r.top <= r.bottom <= |frame|
    ensures r.left <= r.right <= Width(frame)
    ensures r.top == SliceBound(Truncate(face.bbox.y0), |frame|)
    ensures r.left == SliceBound(Truncate(face.bbox.x0), Width(frame))
    ensures r.bottom == r.top || r.bottom == SliceBound(Truncate(face.bbox.y1), |frame|)
    ensures r.right == r.left || r.right == SliceBound(Truncate(face.bbox.x1), Width(frame))
    ensures r.bottom == r.top <==> SliceBound(Truncate(face.bbox.y1), |frame|) <= r.top
    ensures r.right == r.left <==> SliceBound(Truncate(face.bbox.x1), Width(frame)) <= r.left
  {
    var top := SliceBound(Truncate(face.bbox.y0), |frame|);
    var bottom := SliceBound(Truncate(face.bbox.y1), |frame|);
    var left := SliceBound(Truncate(face.bbox.x0), Width(frame));
    var right := SliceBound(Truncate(face.bbox.x1), Width(frame));
    Rect(top, if bottom < top then top else bottom, left, if right < left then left else right)
  }

  /** The pixels of `frame` in `rect`, as a frame of their own. */
  function Crop(frame: Frame, rect: Rect): (r: Frame)
    requires rect.top <= rect.bottom <= |frame| && rect.left <= rect.right <= Width(frame)
    ensures |r| == rect.bottom - rect.top
    ensures forall i :: 0 <= i < |r| ==> |r[i]| == rect.right - rect.left
    ensures forall i, j :: 0 <= i < |r| && 0 <= j < |r[i]| ==> r[i][j] == frame[rect.top + i][rect.left + j]
  {
    seq(rect.bottom - rect.top, i requires 0 <= i < rect.bottom - rect.top =>
      frame[rect.top + i][rect.left..rect.right])
  }

  /** `r` has `frame`'s shape and agrees with it outside `rect`. */
  predicate SameOutside(r: Frame, frame: Frame, rect: Rect) {
    && |r| == |frame|
    && (forall i :: 0 <= i < |r| ==> |r[i]| == |frame[i]|)
    && forall i, j :: 0 <= i < |frame| && 0 <= j < |frame[i]| && !Inside(rect, i, j) ==> r[i][j] == frame[i][j]
  }

  /** Inside `rect`, every pixel of `r` that `restored` covers is taken from it. */
  predicate TakenInside(r: Frame, frame: Frame, rect: Rect, restored: Frame) {
    && |r| == |frame|
    && (forall i :: 0 <= i < |r| ==> |r[i]| == |frame[i]|)
    && forall i, j ::
      (0 <= i < |frame| && 0 <= j < |frame[i]| && Inside(rect, i, j)
       && i - rect.top < |restored| && j - rect.left < |restored[i - rect.top]|) ==>
      r[i][j] == restored[i - rect.top][j - rect.left]
  }

  /** The pixel at row `i`, column `j` after the paste. */
  function PastedPixel(frame: Frame, rect: Rect, restored: Frame, i: nat, j: nat): Pixel
    requires i < |frame| && j < |frame[i]|
  {
    if Inside(rect, i, j) && i - rect.top < |restored| && j - rect.left < |restored[i - rect.top]|
    then restored[i - rect.top][j - rect.left]
    else frame[i][j]
  }

  /** Row `i` after the paste. */
  function PastedRow(frame: Frame, rect: Rect, restored: Frame, i: nat): (row: seq<Pixel>)
    requires i < |frame|
    ensures |row| == |frame[i]|
    ensures forall j :: 0 <= j < |row| ==> row[j] == PastedPixel(frame, rect, restored, i, j)
  {
    seq(|frame[i]|, j requires 0 <= j < |frame[i]| => PastedPixel(frame, rect, restored, i, j))
  }

  /**
    `frame[start_y : end_y, start_x : end_x] = restored`: the pixels of
    `rect` taken from `restored`; a pixel `restored` does not have keeps
    its old value.
  */
  function Paste(frame: Frame, rect: Rect, restored: Frame): (r: Frame)
    ensures SameOutside(r, frame, rect)
    ensures TakenInside(r, frame, rect, restored)
  {
    var rows := seq(|frame|, i requires 0 <= i < |frame| => PastedRow(frame, rect, restored, i));
    assert forall i :: 0 <= i < |rows| ==> |rows[i]| == |frame[i]|;
    assert IsRaster(rows) by {
      if |rows| > 0 {
        assert Width(rows) == |frame[0]| == Width(frame);
      }
    }
    var r: Frame := rows;
    assert forall i, j :: 0 <= i < |frame| && 0 <= j < |frame[i]| ==> r[i][j] == PastedPixel(frame, rect, restored, i, j);
    r
  }

  /**
    `FaceRestorer.process`: an empty crop leaves the frame as it is; a
    non-empty one is enhanced and replaces exactly its rectangle, so every
    pixel outside the rectangle keeps its value and the frame keeps its shape.
  */
  function Restore(e: Engines, target: Face, frame: Frame): (r: Frame)
    ensures Width(r) == Width(frame)
    ensures SameOutside(r, frame, CropRect(target, frame))
    ensures IsEmpty(CropRect(target, frame)) ==> r == frame
    ensures !IsEmpty(CropRect(target, frame)) ==>
      TakenInside(r, frame, CropRect(target, frame), e.enhance(Crop(frame, CropRect(target, frame))))
  {
    var rect := CropRect(target, frame);
    if IsEmpty(rect) then frame
    else
      var restored := e.enhance(Crop(frame, rect));
      var r := Paste(frame, rect, restored);
      assert Width(r) == Width(frame) by {
        if |frame| > 0 {
          assert |r[0]| == |frame[0]|;
        }
      }
      r
  }
}

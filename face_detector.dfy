/**
 * Single-face extraction (ai/face_detector.py, `get_single_face`).
 * The Haar-cascade detector is not modelled: its output, the list of
 * bounding boxes it found in the frame, is an input. Pixels are not carried;
 * the crop is described by its bounds in the frame.
 */
module FaceDetector {
  import opened Wrappers

  /** A detector box: top-left corner, width and height, in pixels (never negative). */
  datatype BBox = BBox(x: nat, y: nat, w: nat, h: nat)

  /** The rows y1..y2 and columns x1..x2 cut out of the frame (half-open, as in a slice). */
  datatype Crop = Crop(x1: int, y1: int, x2: int, y2: int)

  /** An accepted face: the crop around it and the detector's own box. */
  datatype Face = Face(crop: Crop, bbox: BBox)

  const Margin: int := 20
  const MinFaceSize: int := 80

  function Max(a: int, b: int): int { if a < b then b else a }
  function Min(a: int, b: int): int { if a < b then a else b }

  /** Length of the slice lo:hi taken from an axis whose end hi never exceeds. */
  function SliceLen(lo: int, hi: int): nat { if hi <= lo then 0 else hi - lo }

  /**
   * The box grown by the margin on every side and clamped to a width x height frame.
   * The crop never leaves the frame, and it contains the box whenever the box lies inside the frame.
   */
  function MarginCrop(b: BBox, width: nat, height: nat): (c: Crop)
    ensures 0 <= c.x1 && c.x2 <= width && 0 <= c.y1 && c.y2 <= height
    ensures b.x + b.w <= width ==> c.x1 <= b.x && b.x + b.w <= c.x2
    ensures b.y + b.h <= height ==> c.y1 <= b.y && b.y + b.h <= c.y2
  {
    Crop(Max(0, b.x - Margin), Max(0, b.y - Margin),
         Min(width, b.x + b.w + Margin), Min(height, b.y + b.h + Margin))
  }

  /** The crop is big enough to be passed on: at least MinFaceSize pixels each way. */
  predicate LargeEnough(c: Crop) {
    SliceLen(c.y1, c.y2) >= MinFaceSize && SliceLen(c.x1, c.x2) >= MinFaceSize
  }

  /**
   * `get_single_face`: exactly one detected box, cropped with a margin,
   * rejected when the crop is under MinFaceSize in height or width.
   * The box returned is the detector's box, not the enlarged crop.
   */
  function GetSingleFace(faces: seq<BBox>, width: nat, height: nat): (r: Option<Face>)
    ensures |faces| != 1 ==> r.None?
    ensures r.Some? ==> |faces| == 1 && r.value.bbox == faces[0]
    ensures r.Some? ==> r.value.crop == MarginCrop(faces[0], width, height)
    ensures r.Some? ==> var c := r.value.crop;
      0 <= c.x1 && c.x1 + MinFaceSize <= c.x2 <= width &&
      0 <= c.y1 && c.y1 + MinFaceSize <= c.y2 <= height
    ensures |faces| == 1 && !LargeEnough(MarginCrop(faces[0], width, height)) ==> r.None?
  {
    if |faces| != 1 then None
    else
      var b := faces[0];
      var c := MarginCrop(b, width, height);
      if SliceLen(c.y1, c.y2) < MinFaceSize || SliceLen(c.x1, c.x2) < MinFaceSize then None
      else Some(Face(c, b))
  }

  /** A single box inside the frame whose enlarged crop is large enough is always accepted, and its crop contains it. */
  lemma SingleFaceAccepted(b: BBox, width: nat, height: nat)
    requires b.x + b.w <= width && b.y + b.h <= height
    requires LargeEnough(MarginCrop(b, width, height))
    ensures var r := GetSingleFace([b], width, height);
      r.Some? && r.value.bbox == b &&
      r.value.crop.x1 <= b.x && b.x + b.w <= r.value.crop.x2 &&
      r.value.crop.y1 <= b.y && b.y + b.h <= r.value.crop.y2
  {
  }
}

/** The face detection service's collection loop: every detection, already converted to integer
    pixel coordinates, is clipped to the frame and appended to the list of boxes. */
module FaceDetection {
  import opened Boxes

  /** The clipping guarantee: no coordinate lies before the frame's origin and no far edge lies
      beyond the frame of width `w` and height `h`. */
  predicate WithinFrame(b: BBox, w: int, h: int) {
    b.x1 >= 0 && b.y1 >= 0 && b.x2 <= w && b.y2 <= h
  }

  /** Clipping of one box: `x1`, `y1` are raised to 0 and `x2`, `y2` lowered to `w`, `h`, each the
      nearest in-range value. A coordinate changes only when it is out of range, and a box
      already within the frame is returned as it is. The near edges are not bounded by `w`, `h` nor the far edges by 0. */
  function Clip(b: BBox, w: int, h: int): (r: BBox)
    ensures WithinFrame(r, w, h)
    ensures r.x1 >= b.x1 && r.y1 >= b.y1 && r.x2 <= b.x2 && r.y2 <= b.y2
    ensures (r.x1 != b.x1 ==> r.x1 == 0) && (r.y1 != b.y1 ==> r.y1 == 0)
    ensures (r.x2 != b.x2 ==> r.x2 == w) && (r.y2 != b.y2 ==> r.y2 == h)
    ensures r == b <==> WithinFrame(b, w, h)
  {
    var x1 := if 0 < b.x1 then b.x1 else 0;
    var y1 := if 0 < b.y1 then b.y1 else 0;
    var x2 := if w < b.x2 then w else b.x2;
    var y2 := if h < b.y2 then h else b.y2;
    BBox(x1, y1, x2, y2)
  }

  /** Clipping is idempotent. */
  lemma ClipIdempotent(b: BBox, w: int, h: int)
    ensures Clip(Clip(b, w, h), w, h) == Clip(b, w, h)
  {
  }

  /** `detect_faces` from the integer coordinates on: one box per detection, in detection order,
      each the clipped detection; no detection gives no box. */
  method DetectFaces(detections: seq<BBox>, w: nat, h: nat) returns (bboxes: seq<BBox>)
    ensures |bboxes| == |detections|
    ensures forall i :: 0 <= i < |bboxes| ==> bboxes[i] == Clip(detections[i], w, h)
    ensures forall i :: 0 <= i < |bboxes| ==> WithinFrame(bboxes[i], w, h)
  {
    bboxes := [];
    var i := 0;
    while i < |detections|
      invariant 0 <= i <= |detections|
      invariant |bboxes| == i
      invariant forall k :: 0 <= k < i ==> bboxes[k] == Clip(detections[k], w, h)
    {
      var d := detections[i];
      var x1, y1, x2, y2 := d.x1, d.y1, d.x2, d.y2;
      x1 := if 0 < x1 then x1 else 0;
      y1 := if 0 < y1 then y1 else 0;
      x2 := if w < x2 then w else x2;
      y2 := if h < y2 then h else y2;
      bboxes := bboxes + [BBox(x1, y1, x2, y2)];
      i := i + 1;
    }
  }

  /** `get_face_count`: the number of boxes `detect_faces` returns, which is the number of
      detections. */
  method GetFaceCount(detections: seq<BBox>, w: nat, h: nat) returns (count: nat)
    ensures count == |detections|
  {
    var bboxes := DetectFaces(detections, w, h);
    count := |bboxes|;
  }
}

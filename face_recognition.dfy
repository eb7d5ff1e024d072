/** The bounding-box guards and the crop of the face recognition service. A frame is a grid of
    pixels, row by row; the crop `frame[y1:y2, x1:x2]` follows Python's slicing rules, under which
    a negative bound counts from the end and any bound is clamped to the length. */
module FaceRecognition {
  import opened Wrappers
  import opened Boxes
  import FaceDetection

  /** Python's normalisation of one slice bound `i` against a sequence of length `n`. */
  function SliceBound(i: int, n: nat): (r: nat)
    ensures r <= n
    ensures 0 <= i <= n ==> r == i
    ensures i > n ==> r == n
    ensures i < 0 && 0 <= i + n ==> r == i + n
    ensures i + n < 0 ==> r == 0
  {
    if i < 0 then (if i + n < 0 then 0 else i + n)
    else if i > n then n
    else i
  }

  /** `s[start:stop]` in Python: a contiguous part of `s`, beginning at the normalised start; for
      bounds already within `s` it is the ordinary subsequence. */
  function Slice<T>(s: seq<T>, start: int, stop: int): (r: seq<T>)
    ensures SliceBound(start, |s|) + |r| <= |s|
    ensures r == s[SliceBound(start, |s|)..SliceBound(start, |s|) + |r|]
    ensures |r| == if SliceBound(start, |s|) < SliceBound(stop, |s|) then SliceBound(stop, |s|) - SliceBound(start, |s|) else 0
    ensures 0 <= start <= stop <= |s| ==> r == s[start..stop]
  {
    var a, b := SliceBound(start, |s|), SliceBound(stop, |s|);
    if a < b then s[a..b] else []
  }

  /** `frame[y1:y2, x1:x2]`: the rows `y1:y2`, each cut to the columns `x1:x2`. */
  function Crop<T>(frame: seq<seq<T>>, b: BBox): (r: seq<seq<T>>)
    ensures |r| == |Slice(frame, b.y1, b.y2)|
    ensures forall i :: 0 <= i < |r| ==> r[i] == Slice(Slice(frame, b.y1, b.y2)[i], b.x1, b.x2)
  {
    var rows := Slice(frame, b.y1, b.y2);
    seq(|rows|, i requires 0 <= i < |rows| => Slice(rows[i], b.x1, b.x2))
  }

  /** The number of pixels of a grid, numpy's `.size` (row count times column count for a
      rectangular grid). */
  function Size<T>(grid: seq<seq<T>>): (r: nat)
    ensures forall i :: 0 <= i < |grid| ==> |grid[i]| <= r
  {
    if grid == [] then 0
    else
      var rest := grid[1..];
      assert forall i :: 1 <= i < |grid| ==> grid[i] == rest[i - 1];
      |grid[0]| + Size(rest)
  }

  /** For a rectangular grid, `.size` is the number of rows times the row width. */
  lemma {:induction false} SizeOfRectangular<T>(grid: seq<seq<T>>, width: nat)
    requires Rectangular(grid, width)
    ensures Size(grid) == |grid| * width
  {
    if grid != [] {
      assert Rectangular(grid[1..], width) by {
        forall i | 0 <= i < |grid[1..]| ensures |grid[1..][i]| == width {
          assert grid[1..][i] == grid[i + 1];
        }
      }
      SizeOfRectangular(grid[1..], width);
    }
  }

  /** A grid has no pixel exactly when each of its rows is empty. */
  lemma {:induction false} SizeZeroIffRowsEmpty<T>(grid: seq<seq<T>>)
    ensures Size(grid) == 0 <==> forall i :: 0 <= i < |grid| ==> grid[i] == []
  {
    if grid != [] {
      SizeZeroIffRowsEmpty(grid[1..]);
      if Size(grid) == 0 {
        forall i | 0 <= i < |grid| ensures grid[i] == [] {
          if i > 0 { assert grid[i] == grid[1..][i - 1]; }
        }
      } else if |grid[0]| == 0 {
        var k :| 0 <= k < |grid[1..]| && grid[1..][k] != [];
        assert grid[k + 1] != [];
      }
    }
  }

  /** A frame whose rows all have `width` pixels, as every image array is. */
  predicate Rectangular<T>(frame: seq<seq<T>>, width: int) {
    forall i :: 0 <= i < |frame| ==> |frame[i]| == width
  }

  /** `extract_face_from_frame`: nothing for a degenerate box (`x2 <= x1` or `y2 <= y1`) and
      nothing for an empty crop; otherwise the crop `frame[y1:y2, x1:x2]`, which has pixels. */
  function ExtractFaceFromFrame<T>(frame: seq<seq<T>>, b: BBox): (r: Option<seq<seq<T>>>)
    ensures Degenerate(b) ==> r == None
    ensures !Degenerate(b) ==> (r.Some? <==> Size(Crop(frame, b)) > 0)
    ensures r.Some? ==> r.value == Crop(frame, b) && Size(r.value) > 0
  {
    if b.x2 <= b.x1 || b.y2 <= b.y1 then None
    else
      var crop := Crop(frame, b);
      if Size(crop) == 0 then None else Some(crop)
  }

  /** `extract_face_embedding`: the same two guards and the same crop come before the embedding
      model is consulted. `embed` stands for everything after the crop (colour conversion, face
      alignment and the embedding network), with `None` for an alignment that finds no face or
      an error it raises. */
  function ExtractFaceEmbedding<T, E>(frame: seq<seq<T>>, b: BBox, embed: seq<seq<T>> -> Option<E>): (r: Option<E>)
    ensures ExtractFaceFromFrame(frame, b).None? ==> r == None
    ensures Degenerate(b) ==> r == None
    ensures ExtractFaceFromFrame(frame, b).Some? ==> r == embed(Crop(frame, b))
  {
    if b.x2 <= b.x1 || b.y2 <= b.y1 then None
    else
      var crop := Crop(frame, b);
      if Size(crop) == 0 then None else embed(crop)
  }

  /** A box that lies within a rectangular frame and has area yields exactly the sub-grid of rows
      `y1..y2` and columns `x1..x2`. */
  lemma {:induction false} CropOfBoxInFrame<T>(frame: seq<seq<T>>, width: nat, b: BBox)
    requires Rectangular(frame, width)
    requires 0 <= b.x1 < b.x2 <= width && 0 <= b.y1 < b.y2 <= |frame|
    ensures ExtractFaceFromFrame(frame, b).Some?
    ensures var face := ExtractFaceFromFrame(frame, b).value;
      && |face| == b.y2 - b.y1
      && (forall i :: 0 <= i < |face| ==> |face[i]| == b.x2 - b.x1)
      && (forall i, j :: 0 <= i < |face| && 0 <= j < |face[i]| ==> face[i][j] == frame[b.y1 + i][b.x1 + j])
  {
    var crop := Crop(frame, b);
    var rows := Slice(frame, b.y1, b.y2);
    assert rows == frame[b.y1..b.y2];
    assert |crop| == b.y2 - b.y1;
    forall i | 0 <= i < |crop|
      ensures |crop[i]| == b.x2 - b.x1
      ensures forall j :: 0 <= j < b.x2 - b.x1 ==> crop[i][j] == frame[b.y1 + i][b.x1 + j]
    {
      assert rows[i] == frame[b.y1 + i];
      assert |rows[i]| == width;
      assert crop[i] == rows[i][b.x1..b.x2];
    }
    assert crop[0] != [];
    SizeZeroIffRowsEmpty(crop);
  }

  /** The boxes of the detection service never reach the empty-crop guard: on a rectangular frame
      of `w` by `h` pixels, a clipped detection yields a face exactly when the clipped box has area,
      and then the face is the frame's sub-grid under the box. */
  lemma DetectedBoxCrop<T>(frame: seq<seq<T>>, w: nat, h: nat, detection: BBox)
    requires Rectangular(frame, w) && |frame| == h
    ensures var b := FaceDetection.Clip(detection, w, h);
      ExtractFaceFromFrame(frame, b).Some? <==> !Degenerate(b)
    ensures var b := FaceDetection.Clip(detection, w, h);
      ExtractFaceFromFrame(frame, b).Some? ==>
        forall i, j :: 0 <= i < b.y2 - b.y1 && 0 <= j < b.x2 - b.x1 ==>
          ExtractFaceFromFrame(frame, b).value[i][j] == frame[b.y1 + i][b.x1 + j]
  {
    var b := FaceDetection.Clip(detection, w, h);
    if !Degenerate(b) {
      assert 0 <= b.x1 < b.x2 <= w && 0 <= b.y1 < b.y2 <= |frame|;
      CropOfBoxInFrame(frame, w, b);
    }
  }

  /** Python's slicing counts a negative bound from the end: on a rectangular frame `width`
      pixels wide, a box with `0 <= width + x1` and `x1 < 0` and `x2 >= width`, which the guard lets through,
      crops the last `-x1` columns of each of its rows. */
  lemma NegativeBoundCountsFromEnd<T>(frame: seq<seq<T>>, width: nat, b: BBox)
    requires Rectangular(frame, width)
    requires 0 <= width + b.x1 && b.x1 < 0 && width <= b.x2
    requires 0 <= b.y1 < b.y2 <= |frame|
    ensures ExtractFaceFromFrame(frame, b).Some?
    ensures var face := ExtractFaceFromFrame(frame, b).value;
      && |face| == b.y2 - b.y1
      && forall i :: 0 <= i < |face| ==> face[i] == frame[b.y1 + i][width + b.x1..]
  {
    var crop := Crop(frame, b);
    var rows := Slice(frame, b.y1, b.y2);
    assert rows == frame[b.y1..b.y2];
    forall i | 0 <= i < |crop|
      ensures crop[i] == frame[b.y1 + i][width + b.x1..]
    {
      assert rows[i] == frame[b.y1 + i];
      assert |rows[i]| == width;
    }
    assert crop[0] != [];
    SizeZeroIffRowsEmpty(crop);
  }
}
